/** The fixed-window rate limiter: the in-memory fallback with its lazy reset and bulk
    purge, and the Redis counter whose expiry is set only when it is created.

    `SlidingBound` bounds the allowed requests in any interval of one window's length
    over every run of calls with one window; `RepliesTally` gives every reply in full.
    `BackendsAgree` says exactly when the two back ends give the same answers, and
    `PurgeChangesNoAnswer` when purging at another size does: the instants at which a
    window ends decide. `MixedWindowsEvade` says what another window does, and
    `BoundedExactlyWithoutShorterWindows` which windows the bound needs. */
module RateLimiter {

  // Times are microseconds.
  const SECOND := 1_000_000
  const STORE_LIMIT := 10_000

  function Max(a: int, b: int): int {
    if a < b then b else a
  }

  // ---------- The in-memory store ----------

  datatype Record = Record(count: nat, firstSeen: int)

  type Store = map<string, Record>

  /** One request: `arrived` is the clock reading the window start is computed from, `now`
      the later reading taken when the store is looked at. */
  datatype Call = Call(key: string, arrived: int, now: int, maxRequests: int, windowSeconds: int)
  {
    function Window(): int { windowSeconds * SECOND }
    function WindowStart(): int { arrived - Window() }
  }

  datatype Reply = Reply(allowed: bool, limit: int, remaining: int, reset: int)

  function Purge(store: Store, storeLimit: nat, windowStart: int): Store {
    if |store| > storeLimit then
      map k | k in store && store[k].firstSeen > windowStart :: store[k]
    else
      store
  }

  /** The call finds no record, or one whose window is over. */
  predicate Opens(store: Store, c: Call) {
    c.key !in store || store[c.key].firstSeen < c.WindowStart()
  }

  /** `_check_in_memory` with a purge above `storeLimit` records. */
  function Check(store: Store, storeLimit: nat, c: Call): (Store, Reply) {
    var s := Purge(store, storeLimit, c.WindowStart());
    if Opens(s, c) then
      (s[c.key := Record(1, c.now)], Reply(true, c.maxRequests, c.maxRequests - 1, c.windowSeconds))
    else
      var r := s[c.key].(count := s[c.key].count + 1);
      (s[c.key := r],
       if r.count > c.maxRequests then
         Reply(false, c.maxRequests, 0, Max(0, r.firstSeen + c.Window() - c.now) / SECOND)
       else
         Reply(true, c.maxRequests, c.maxRequests - r.count, c.windowSeconds))
  }

  function Run(storeLimit: nat, calls: seq<Call>): Store {
    if calls == [] then map[]
    else Check(Run(storeLimit, calls[..|calls| - 1]), storeLimit, calls[|calls| - 1]).0
  }

  /** The reply to the last call of a run. */
  function LastReply(storeLimit: nat, calls: seq<Call>): Reply
    requires calls != []
  {
    Check(Run(storeLimit, calls[..|calls| - 1]), storeLimit, calls[|calls| - 1]).1
  }

  /** The instants at which a run allowed requests of `key`. */
  function Allowed(storeLimit: nat, calls: seq<Call>, key: string): seq<int> {
    if calls == [] then []
    else
      var before, last := Allowed(storeLimit, calls[..|calls| - 1], key), calls[|calls| - 1];
      if last.key == key && LastReply(storeLimit, calls).allowed then before + [last.now] else before
  }

  /** The clock never goes back between looks at the store. */
  ghost predicate Ordered(calls: seq<Call>) {
    && (forall c <- calls :: c.arrived <= c.now)
    && forall i, j | 0 <= i < j < |calls| :: calls[i].now <= calls[j].now
  }

  /** One limit and one window for `key`, and no shorter window on any call. */
  ghost predicate Configured(calls: seq<Call>, key: string, maxRequests: int, windowSeconds: int) {
    forall c <- calls ::
      && windowSeconds <= c.windowSeconds
      && (c.key == key ==> c.maxRequests == maxRequests && c.windowSeconds == windowSeconds)
  }

  // ---------- Counting ----------

  function CountIn(times: seq<int>, from: int, to: int): nat {
    if times == [] then 0
    else
      CountIn(times[..|times| - 1], from, to) + if from <= times[|times| - 1] < to then 1 else 0
  }

  function CountAfter(times: seq<int>, from: int): nat {
    if times == [] then 0
    else CountAfter(times[..|times| - 1], from) + if from < times[|times| - 1] then 1 else 0
  }

  lemma CountInMore(times: seq<int>, t: int, from: int, to: int)
    ensures CountIn(times + [t], from, to) == CountIn(times, from, to) + if from <= t < to then 1 else 0
  {
    assert (times + [t])[..|times|] == times;
  }

  lemma {:induction false} CountInAtMost(times: seq<int>, from: int, to: int, low: int)
    requires low < from
    ensures CountIn(times, from, to) <= CountAfter(times, low)
  {
    if times != [] { CountInAtMost(times[..|times| - 1], from, to, low); }
  }

  lemma {:induction false} CountAfterLater(times: seq<int>, low: int, high: int)
    requires low <= high
    ensures CountAfter(times, high) <= CountAfter(times, low) <= |times|
  {
    if times != [] { CountAfterLater(times[..|times| - 1], low, high); }
  }

  lemma {:induction false} CountAfterNone(times: seq<int>, from: int)
    requires forall i | 0 <= i < |times| :: times[i] <= from
    ensures CountAfter(times, from) == 0
  {
    if times != [] { CountAfterNone(times[..|times| - 1], from); }
  }

  lemma {:induction false} CountAfterConcat(a: seq<int>, b: seq<int>, from: int)
    ensures CountAfter(a + b, from) == CountAfter(a, from) + CountAfter(b, from)
  {
    if b == [] {
      assert a + b == a;
    } else {
      CountAfterConcat(a, b[..|b| - 1], from);
      assert (a + b)[..|a + b| - 1] == a + b[..|b| - 1];
    }
  }

  // ---------- The sliding bound ----------

  /** The allowed requests of a key, split at the start of its latest window. */
  datatype Ledger = Unused | Ledger(start: int, before: seq<int>, current: seq<int>)

  function NextBook(book: Ledger, store: Store, storeLimit: nat, c: Call): Ledger {
    if book.Unused? then Ledger(c.now, [], [c.now])
    else if Opens(Purge(store, storeLimit, c.WindowStart()), c) then
      Ledger(c.now, book.before + book.current, [c.now])
    else if Check(store, storeLimit, c).1.allowed then book.(current := book.current + [c.now])
    else book
  }

  function Book(storeLimit: nat, calls: seq<Call>, key: string): Ledger {
    if calls == [] then Unused
    else
      var init, c := calls[..|calls| - 1], calls[|calls| - 1];
      var book := Book(storeLimit, init, key);
      if c.key != key then book else NextBook(book, Run(storeLimit, init), storeLimit, c)
  }

  /** Windows of a key start at least `window` apart and each allows at most `most`
      requests, the first at its start; `now` is the latest instant. */
  ghost predicate Kept(book: Ledger, store: Store, key: string, allowed: seq<int>, most: int, window: int, now: int) {
    match book
    case Unused => key !in store && allowed == []
    case Ledger(start, before, current) =>
      && allowed == before + current
      && start <= now
      && (forall i | 0 <= i < |before| :: before[i] <= start)
      && (forall i | 0 <= i < |current| :: current[i] <= now)
      && 1 <= |current| <= most && current[0] == start
      && CountAfter(before, start - window) <= most - 1
      && (key in store ==> store[key].firstSeen == start && |current| <= store[key].count)
      && (key !in store ==> start + window <= now)
  }

  /** The requests before a new window: of those within one window's length, none are
      from before the last window, nor is the one that opened it. */
  lemma NewWindow(book: Ledger, window: int, now: int)
    requires book.Ledger? && book.start + window <= now
    requires (forall i | 0 <= i < |book.before| :: book.before[i] <= book.start)
    requires book.current != [] && book.current[0] == book.start
    ensures CountAfter(book.before + book.current, now - window) <= |book.current| - 1
  {
    var first, rest := [book.current[0]], book.current[1..];
    assert book.current == first + rest;
    CountAfterConcat(book.before, book.current, now - window);
    CountAfterConcat(first, rest, now - window);
    CountAfterNone(book.before, now - window);
    CountAfterNone(first, now - window);
    CountAfterLater(rest, now - window, now - window);
  }

  lemma OwnCallKeeps(book: Ledger, store: Store, storeLimit: nat, allowed: seq<int>, last: int, c: Call)
    requires Kept(book, store, c.key, allowed, Max(1, c.maxRequests), c.Window(), last)
    requires last <= c.now && c.arrived <= c.now && 0 <= c.windowSeconds
    ensures var (after, reply) := Check(store, storeLimit, c);
      Kept(NextBook(book, store, storeLimit, c), after, c.key, if reply.allowed then allowed + [c.now] else allowed,
           Max(1, c.maxRequests), c.Window(), c.now)
  {
    var s := Purge(store, storeLimit, c.WindowStart());
    if book.Ledger? {
      if Opens(s, c) {
        NewWindow(book, c.Window(), c.now);
      } else if s[c.key].count + 1 <= c.maxRequests {
        assert allowed + [c.now] == book.before + (book.current + [c.now]);
      }
    }
  }

  lemma OtherCallKeeps(book: Ledger, store: Store, storeLimit: nat, key: string, allowed: seq<int>, most: int,
        window: int, last: int, c: Call)
    requires Kept(book, store, key, allowed, most, window, last)
    requires c.key != key && last <= c.now && c.arrived <= c.now && window <= c.Window()
    ensures Kept(book, Check(store, storeLimit, c).0, key, allowed, most, window, c.now)
  {
  }

  lemma CallKeeps(book: Ledger, store: Store, storeLimit: nat, key: string, allowed: seq<int>, most: int,
        window: int, c: Call, now: int)
    requires Kept(book, store, key, allowed, most, window, c.now)
    requires c.arrived <= c.now <= now && 0 <= window <= c.Window()
    requires c.key == key ==> most == Max(1, c.maxRequests) && window == c.Window()
    ensures var (after, reply) := Check(store, storeLimit, c);
      Kept(if c.key == key then NextBook(book, store, storeLimit, c) else book, after, key,
           if c.key == key && reply.allowed then allowed + [c.now] else allowed, most, window, now)
  {
    if c.key == key {
      OwnCallKeeps(book, store, storeLimit, allowed, c.now, c);
    } else {
      OtherCallKeeps(book, store, storeLimit, key, allowed, most, window, c.now, c);
    }
  }

  lemma RecentlyAllowed(book: Ledger, store: Store, key: string, allowed: seq<int>, most: int, window: int, now: int)
    ensures Kept(book, store, key, allowed, most, window, now) && 1 <= most ==>
      CountAfter(allowed, now - window) <= 2 * most - 1
  {
    if Kept(book, store, key, allowed, most, window, now) && book.Ledger? {
      CountAfterConcat(book.before, book.current, now - window);
      CountAfterLater(book.before, book.start - window, now - window);
      CountAfterLater(book.current, now - window, now - window);
    }
  }

  lemma Init(calls: seq<Call>)
    requires calls != [] && Ordered(calls)
    ensures var init, c := calls[..|calls| - 1], calls[|calls| - 1];
      Ordered(init) && (forall d <- init :: d in calls && d.now <= c.now) && c in calls
  {
    var init, c := calls[..|calls| - 1], calls[|calls| - 1];
    forall i | 0 <= i < |init| ensures init[i].now <= c.now && init[i] in calls {
      assert calls[i].now <= calls[|calls| - 1].now;
    }
  }

  lemma {:induction false} BookKept(storeLimit: nat, calls: seq<Call>, key: string, maxRequests: int,
        windowSeconds: nat, now: int)
    requires Ordered(calls) && Configured(calls, key, maxRequests, windowSeconds)
    requires forall c <- calls :: c.now <= now
    ensures Kept(Book(storeLimit, calls, key), Run(storeLimit, calls), key, Allowed(storeLimit, calls, key),
                 Max(1, maxRequests), windowSeconds * SECOND, now)
  {
    if calls != [] {
      var init, c := calls[..|calls| - 1], calls[|calls| - 1];
      Init(calls);
      BookKept(storeLimit, init, key, maxRequests, windowSeconds, c.now);
      CallKeeps(Book(storeLimit, init, key), Run(storeLimit, init), storeLimit, key, Allowed(storeLimit, init, key),
        Max(1, maxRequests), windowSeconds * SECOND, c, now);
    }
  }

  /** Counting back one window from the latest call. */
  lemma BoundAtLatest(storeLimit: nat, calls: seq<Call>, key: string, maxRequests: int, windowSeconds: nat, now: int)
    requires Ordered(calls) && Configured(calls, key, maxRequests, windowSeconds)
    requires forall c <- calls :: c.now <= now
    ensures CountAfter(Allowed(storeLimit, calls, key), now - windowSeconds * SECOND) <= 2 * Max(1, maxRequests) - 1
  {
    BookKept(storeLimit, calls, key, maxRequests, windowSeconds, now);
    RecentlyAllowed(Book(storeLimit, calls, key), Run(storeLimit, calls), key, Allowed(storeLimit, calls, key),
      Max(1, maxRequests), windowSeconds * SECOND, now);
  }

  lemma CountAtLast(storeLimit: nat, calls: seq<Call>, key: string, from: int, to: int)
    requires calls != [] && !(from <= calls[|calls| - 1].now < to)
    ensures CountIn(Allowed(storeLimit, calls, key), from, to)
         == CountIn(Allowed(storeLimit, calls[..|calls| - 1], key), from, to)
  {
    CountInMore(Allowed(storeLimit, calls[..|calls| - 1], key), calls[|calls| - 1].now, from, to);
  }

  /** Over any run, across resets and purges, a half-open interval as long as the window
      holds at most twice `max_requests`, less one, allowed requests of a key (and at most
      one when `max_requests` is not positive: the first of a window always passes). */
  lemma {:induction false} SlidingBound(storeLimit: nat, calls: seq<Call>, key: string, maxRequests: int,
        windowSeconds: int, from: int)
    requires Ordered(calls) && Configured(calls, key, maxRequests, windowSeconds)
    ensures CountIn(Allowed(storeLimit, calls, key), from, from + windowSeconds * SECOND) <= 2 * Max(1, maxRequests) - 1
  {
    if calls != [] {
      var now, to := calls[|calls| - 1].now, from + windowSeconds * SECOND;
      Init(calls);
      if from <= now < to {
        BoundAtLatest(storeLimit, calls, key, maxRequests, windowSeconds, now);
        CountInAtMost(Allowed(storeLimit, calls, key), from, to, now - windowSeconds * SECOND);
      } else {
        SlidingBound(storeLimit, calls[..|calls| - 1], key, maxRequests, windowSeconds, from);
        CountAtLast(storeLimit, calls, key, from, to);
      }
    }
  }

  // ---------- No refusal without cause ----------

  /** The instants of all calls of a key, allowed or not. */
  function Times(calls: seq<Call>, key: string): seq<int> {
    if calls == [] then []
    else
      var before, c := Times(calls[..|calls| - 1], key), calls[|calls| - 1];
      if c.key == key then before + [c.now] else before
  }

  function CountFrom(times: seq<int>, from: int): nat {
    if times == [] then 0
    else CountFrom(times[..|times| - 1], from) + if from <= times[|times| - 1] then 1 else 0
  }

  lemma {:induction false} CountFromEarlier(times: seq<int>, low: int, high: int)
    requires low <= high
    ensures CountFrom(times, high) <= CountFrom(times, low)
  {
    if times != [] { CountFromEarlier(times[..|times| - 1], low, high); }
  }

  /** A record counts only calls made since its window began. */
  predicate CountsSince(store: Store, key: string, times: seq<int>, now: int) {
    key in store ==> store[key].firstSeen <= now && store[key].count <= CountFrom(times, store[key].firstSeen)
  }

  lemma CountsSinceMore(store: Store, storeLimit: nat, key: string, times: seq<int>, now: int, c: Call)
    ensures CountsSince(store, key, times, c.now) && c.now <= now ==>
      CountsSince(Check(store, storeLimit, c).0, key, if c.key == key then times + [c.now] else times, now)
  {
    assert (times + [c.now])[..|times|] == times;
  }

  lemma {:induction false} CountsAreCalls(storeLimit: nat, calls: seq<Call>, key: string, now: int)
    requires Ordered(calls) && forall c <- calls :: c.now <= now
    ensures CountsSince(Run(storeLimit, calls), key, Times(calls, key), now)
  {
    if calls != [] {
      var init, c := calls[..|calls| - 1], calls[|calls| - 1];
      Init(calls);
      CountsAreCalls(storeLimit, init, key, c.now);
      CountsSinceMore(Run(storeLimit, init), storeLimit, key, Times(init, key), now, c);
    }
  }

  /** A request is refused only if at least `max_requests` earlier calls of its key came
      within the window: over any run, whatever limits and windows the calls have. */
  lemma RefusedOnlyOverLimit(storeLimit: nat, calls: seq<Call>)
    requires calls != [] && Ordered(calls) && !LastReply(storeLimit, calls).allowed
    ensures var init, c := calls[..|calls| - 1], calls[|calls| - 1];
      CountFrom(Times(init, c.key), c.WindowStart()) >= c.maxRequests
  {
    var init, c := calls[..|calls| - 1], calls[|calls| - 1];
    var store := Run(storeLimit, init);
    Init(calls);
    CountsAreCalls(storeLimit, init, c.key, c.now);
    CountFromEarlier(Times(init, c.key), c.WindowStart(), store[c.key].firstSeen);
  }

  // ---------- The bound is met, and needs one window ----------

  /** One more call after a run. */
  lemma Extend(storeLimit: nat, calls: seq<Call>, c: Call, key: string)
    ensures var store, allowed := Run(storeLimit, calls), Allowed(storeLimit, calls, key);
      && Run(storeLimit, calls + [c]) == Check(store, storeLimit, c).0
      && Allowed(storeLimit, calls + [c], key)
         == if c.key == key && Check(store, storeLimit, c).1.allowed then allowed + [c.now] else allowed
  {
    assert (calls + [c])[..|calls|] == calls;
  }

  /** A run of one key: its record, and how many requests were allowed in an interval. */
  datatype Solo = Solo(record: Record, count: int)

  function NextSolo(solo: Solo, c: Call, from: int, to: int): Solo {
    var here := if from <= c.now < to then 1 else 0;
    if solo.record.firstSeen < c.WindowStart() then Solo(Record(1, c.now), solo.count + here)
    else
      var r := Record(solo.record.count + 1, solo.record.firstSeen);
      Solo(r, if r.count <= c.maxRequests then solo.count + here else solo.count)
  }

  function SoloRun(calls: seq<Call>, from: int, to: int): Solo
    requires calls != []
  {
    var c := calls[|calls| - 1];
    if |calls| == 1 then Solo(Record(1, c.now), if from <= c.now < to then 1 else 0)
    else NextSolo(SoloRun(calls[..|calls| - 1], from, to), c, from, to)
  }

  predicate Alone(store: Store, allowed: seq<int>, key: string, solo: Solo, from: int, to: int) {
    store == map[key := solo.record] && CountIn(allowed, from, to) == solo.count
  }

  lemma AloneMore(storeLimit: nat, store: Store, allowed: seq<int>, solo: Solo, c: Call, from: int, to: int)
    requires 1 <= storeLimit && Alone(store, allowed, c.key, solo, from, to)
    ensures var (after, reply) := Check(store, storeLimit, c);
      Alone(after, if reply.allowed then allowed + [c.now] else allowed, c.key, NextSolo(solo, c, from, to), from, to)
  {
    CountInMore(allowed, c.now, from, to);
    assert store.Keys == {c.key};
    assert |store| == 1;
  }

  lemma {:induction false} SoloIsRun(storeLimit: nat, calls: seq<Call>, key: string, from: int, to: int)
    requires 1 <= storeLimit && calls != [] && forall i | 0 <= i < |calls| :: calls[i].key == key
    ensures Alone(Run(storeLimit, calls), Allowed(storeLimit, calls, key), key, SoloRun(calls, from, to), from, to)
  {
    var init, c := calls[..|calls| - 1], calls[|calls| - 1];
    if |calls| == 1 {
      CountInMore([], c.now, from, to);
    } else {
      SoloIsRun(storeLimit, init, key, from, to);
      var solo := SoloRun(init, from, to);
      AloneMore(storeLimit, Run(storeLimit, init), Allowed(storeLimit, init, key), solo, c, from, to);
    }
  }

  /** A run of one key: a request opens a window, the rest of its requests come at its last
      instant, and all of the next window's right after it. */
  predicate IsBurst(calls: seq<Call>, key: string, most: nat, w: int) {
    |calls| == 2 * most && forall i | 0 <= i < |calls| ::
      var at := if i == 0 then 0 else if i < most then w * SECOND else w * SECOND + 1;
      calls[i] == Call(key, at, at, most, w)
  }

  function Burst(key: string, most: nat, w: int): (calls: seq<Call>)
    ensures IsBurst(calls, key, most, w)
  {
    seq(2 * most, i requires 0 <= i < 2 * most =>
      var at := if i == 0 then 0 else if i < most then w * SECOND else w * SECOND + 1;
      Call(key, at, at, most, w))
  }

  lemma {:induction false} BurstSoFar(calls: seq<Call>, key: string, most: nat, w: int, n: nat)
    requires 1 <= w && IsBurst(calls, key, most, w) && 1 <= n <= 2 * most
    ensures var t := w * SECOND;
      SoloRun(calls[..n], t, t + t) == Solo(if n <= most then Record(n, 0) else Record(n - most, t + 1), n - 1)
  {
    if n > 1 {
      assert calls[..n][..n - 1] == calls[..n - 1];
      BurstSoFar(calls, key, most, w, n - 1);
    }
  }

  lemma BurstIsOrdered(key: string, most: nat, w: int)
    requires 1 <= most && 1 <= w
    ensures Ordered(Burst(key, most, w)) && Configured(Burst(key, most, w), key, most, w)
  {
  }

  lemma BurstAllowed(storeLimit: nat, calls: seq<Call>, key: string, most: nat, w: int)
    requires 1 <= storeLimit && 1 <= most && 1 <= w && IsBurst(calls, key, most, w)
    ensures CountIn(Allowed(storeLimit, calls, key), w * SECOND, w * SECOND + w * SECOND) == 2 * most - 1
  {
    BurstSoFar(calls, key, most, w, 2 * most);
    assert calls[..2 * most] == calls;
    SoloIsRun(storeLimit, calls, key, w * SECOND, w * SECOND + w * SECOND);
  }

  /** For every limit and window there is a run that meets the bound. */
  lemma SlidingBoundIsTight(storeLimit: nat, key: string, most: nat, w: int)
    requires 1 <= storeLimit && 1 <= most && 1 <= w
    ensures var calls, t := Burst(key, most, w), w * SECOND;
      && Ordered(calls) && Configured(calls, key, most, w)
      && CountIn(Allowed(storeLimit, calls, key), t, t + t) == 2 * Max(1, most) - 1
  {
    BurstIsOrdered(key, most, w);
    BurstAllowed(storeLimit, Burst(key, most, w), key, most, w);
  }

  /** A key of a given length. */
  function Filler(n: nat): (s: string)
    ensures |s| == n
  {
    seq(n, _ => 'x')
  }

  /** `n` requests of a key at one instant. */
  function KeyCalls(n: nat, key: string, at: int, most: int, w: int): seq<Call> {
    if n == 0 then [] else KeyCalls(n - 1, key, at, most, w) + [Call(key, at, at, most, w)]
  }

  /** A request of a longer key at time 0. */
  function FillerCall(i: nat, key: string, v: int): Call {
    Call(Filler(|key| + i + 1), 0, 0, 1, v)
  }

  function FillerCalls(n: nat, key: string, v: int): seq<Call> {
    if n == 0 then [] else FillerCalls(n - 1, key, v) + [FillerCall(n - 1, key, v)]
  }

  /** When a purge with window `v` drops what began at time 0. */
  function DropTime(v: int): int {
    if v < 0 then 0 else v * SECOND
  }

  /** The calls before the purge, and the one that purges. */
  function Crowd(storeLimit: nat, key: string, most: int, w: int, v: int): seq<Call> {
    KeyCalls(Max(1, most), key, 0, most, w) + FillerCalls(storeLimit, key, v)
  }

  function Purger(storeLimit: nat, key: string, v: int): Call {
    Call(Filler(|key| + storeLimit + 1), DropTime(v), DropTime(v), 1, v)
  }

  /** A key that is used up, a full store, a call with a shorter window, and the key again. */
  function Evasion(storeLimit: nat, key: string, most: int, w: int, v: int): seq<Call> {
    Crowd(storeLimit, key, most, w, v) + [Purger(storeLimit, key, v)]
    + KeyCalls(Max(1, most), key, DropTime(v), most, w)
  }

  lemma {:induction false} KeyCallsAre(n: nat, key: string, at: int, most: int, w: int)
    ensures |KeyCalls(n, key, at, most, w)| == n
    ensures forall i | 0 <= i < n :: KeyCalls(n, key, at, most, w)[i] == Call(key, at, at, most, w)
  {
    if n > 0 { KeyCallsAre(n - 1, key, at, most, w); }
  }

  lemma {:induction false} FillerCallsAre(n: nat, key: string, v: int)
    ensures |FillerCalls(n, key, v)| == n
    ensures forall i | 0 <= i < n :: FillerCalls(n, key, v)[i] == FillerCall(i, key, v)
  {
    if n > 0 { FillerCallsAre(n - 1, key, v); }
  }

  /** All records began at one instant. */
  ghost predicate BeganAt(store: Store, at: int) {
    forall k <- store :: store[k].firstSeen == at
  }

  lemma KeyCallCounts(store: Store, storeLimit: nat, key: string, i: nat, at: int, most: int, w: int)
    requires 1 <= w && BeganAt(store, at) && i < Max(1, most)
    requires if i == 0 then key !in store else key in store && store[key].count == i
    ensures var (after, reply) := Check(store, storeLimit, Call(key, at, at, most, w));
      reply.allowed && BeganAt(after, at) && key in after && after[key].count == i + 1
  {
    assert Purge(store, storeLimit, at - w * SECOND) == store;
  }

  /** `n` requests of a key have passed since none was in the store; `total` have in all. */
  ghost predicate Round(storeLimit: nat, calls: seq<Call>, key: string, n: nat, at: int, to: int, total: int) {
    var store := Run(storeLimit, calls);
    && BeganAt(store, at) && (if n == 0 then key !in store else key in store && store[key].count == n)
    && CountIn(Allowed(storeLimit, calls, key), 0, to) == total
  }

  lemma RoundMore(storeLimit: nat, calls: seq<Call>, key: string, n: nat, at: int, most: int, w: int, to: int,
        total: int)
    requires Round(storeLimit, calls, key, n, at, to, total) && 1 <= w && n < Max(1, most) && 0 <= at < to
    ensures Round(storeLimit, calls + [Call(key, at, at, most, w)], key, n + 1, at, to, total + 1)
  {
    KeyCallCounts(Run(storeLimit, calls), storeLimit, key, n, at, most, w);
    Extend(storeLimit, calls, Call(key, at, at, most, w), key);
    CountInMore(Allowed(storeLimit, calls, key), at, 0, to);
  }

  lemma {:induction false} KeyRound(storeLimit: nat, before: seq<Call>, key: string, n: nat, at: int, most: int,
        w: int, to: int, total: int)
    requires Round(storeLimit, before, key, 0, at, to, total) && 1 <= w && n <= Max(1, most) && 0 <= at < to
    ensures Round(storeLimit, before + KeyCalls(n, key, at, most, w), key, n, at, to, total + n)
  {
    if n == 0 {
      assert before + [] == before;
    } else {
      KeyRound(storeLimit, before, key, n - 1, at, most, w, to, total);
      RoundMore(storeLimit, before + KeyCalls(n - 1, key, at, most, w), key, n - 1, at, most, w, to, total + n - 1);
      AppendOne(before, KeyCalls(n - 1, key, at, most, w), Call(key, at, at, most, w));
    }
  }

  lemma AppendOne(a: seq<Call>, b: seq<Call>, c: Call)
    ensures a + (b + [c]) == a + b + [c]
  {
  }

  /** The store after `n` longer keys joined the first one. */
  function CrowdStore(key: string, n: nat, r: Record): Store {
    if n == 0 then map[key := r] else CrowdStore(key, n - 1, r)[Filler(|key| + n) := Record(1, 0)]
  }

  lemma {:induction false} CrowdSize(key: string, n: nat, r: Record)
    requires r.firstSeen == 0
    ensures |CrowdStore(key, n, r)| == n + 1 && BeganAt(CrowdStore(key, n, r), 0)
    ensures forall k <- CrowdStore(key, n, r) :: |k| <= |key| + n
  {
    if n > 0 {
      CrowdSize(key, n - 1, r);
      assert Filler(|key| + n) !in CrowdStore(key, n - 1, r);
    }
  }

  lemma FillerJoins(key: string, n: nat, r: Record, storeLimit: nat, v: int)
    requires n < storeLimit && r.firstSeen == 0
    ensures Check(CrowdStore(key, n, r), storeLimit, FillerCall(n, key, v)).0 == CrowdStore(key, n + 1, r)
  {
    CrowdSize(key, n, r);
  }

  ghost predicate Crowded(storeLimit: nat, calls: seq<Call>, key: string, n: nat, r: Record, allowed: seq<int>) {
    Run(storeLimit, calls) == CrowdStore(key, n, r) && Allowed(storeLimit, calls, key) == allowed
  }

  lemma FillerMore(storeLimit: nat, before: seq<Call>, key: string, n: nat, v: int, r: Record, allowed: seq<int>)
    requires n < storeLimit && r.firstSeen == 0
    ensures Crowded(storeLimit, before + FillerCalls(n, key, v), key, n, r, allowed) ==>
      Crowded(storeLimit, before + FillerCalls(n + 1, key, v), key, n + 1, r, allowed)
  {
    var calls := before + FillerCalls(n, key, v);
    FillerJoins(key, n, r, storeLimit, v);
    Extend(storeLimit, calls, FillerCall(n, key, v), key);
    AppendOne(before, FillerCalls(n, key, v), FillerCall(n, key, v));
  }

  lemma {:induction false} FillersCrowd(storeLimit: nat, before: seq<Call>, key: string, n: nat, v: int, r: Record)
    requires n <= storeLimit && Run(storeLimit, before) == map[key := r] && r.firstSeen == 0
    ensures Crowded(storeLimit, before + FillerCalls(n, key, v), key, n, r, Allowed(storeLimit, before, key))
  {
    if n == 0 {
      assert before + [] == before;
    } else {
      FillersCrowd(storeLimit, before, key, n - 1, v, r);
      FillerMore(storeLimit, before, key, n - 1, v, r, Allowed(storeLimit, before, key));
    }
  }

  lemma PurgerDropsAll(store: Store, storeLimit: nat, key: string, v: int)
    requires |store| > storeLimit && BeganAt(store, 0)
    ensures var after := Check(store, storeLimit, Purger(storeLimit, key, v)).0;
      BeganAt(after, DropTime(v)) && key !in after
  {
    var c := Purger(storeLimit, key, v);
    assert Purge(store, storeLimit, c.WindowStart()) == map[];
  }

  lemma OneKeyStays(store: Store, storeLimit: nat, key: string, i: nat, most: int, w: int)
    requires store == if i == 0 then map[] else map[key := Record(i, 0)]
    requires 1 <= w
    ensures Check(store, storeLimit, Call(key, 0, 0, most, w)).0 == map[key := Record(i + 1, 0)]
  {
    assert Purge(store, storeLimit, 0 - w * SECOND) == store;
  }

  lemma {:induction false} KeyAlone(storeLimit: nat, n: nat, key: string, most: int, w: int)
    requires 1 <= w
    ensures Run(storeLimit, KeyCalls(n, key, 0, most, w)) == if n == 0 then map[] else map[key := Record(n, 0)]
  {
    if n > 0 {
      var calls := KeyCalls(n - 1, key, 0, most, w);
      KeyAlone(storeLimit, n - 1, key, most, w);
      OneKeyStays(Run(storeLimit, calls), storeLimit, key, n - 1, most, w);
      Extend(storeLimit, calls, Call(key, 0, 0, most, w), key);
    }
  }

  lemma PurgerRuns(storeLimit: nat, calls: seq<Call>, key: string, v: int, r: Record, to: int, total: int)
    requires Run(storeLimit, calls) == CrowdStore(key, storeLimit, r) && r.firstSeen == 0
    requires CountIn(Allowed(storeLimit, calls, key), 0, to) == total
    ensures Round(storeLimit, calls + [Purger(storeLimit, key, v)], key, 0, DropTime(v), to, total)
  {
    CrowdSize(key, storeLimit, r);
    PurgerDropsAll(Run(storeLimit, calls), storeLimit, key, v);
    Extend(storeLimit, calls, Purger(storeLimit, key, v), key);
  }

  /** The key's requests in both rounds pass. */
  lemma EvasionAllowed(storeLimit: nat, key: string, most: int, w: int, v: int)
    requires 1 <= w && v < w
    ensures CountIn(Allowed(storeLimit, Evasion(storeLimit, key, most, w, v), key), 0, w * SECOND) == 2 * Max(1, most)
  {
    var n, to, first := Max(1, most), w * SECOND, KeyCalls(Max(1, most), key, 0, most, w);
    KeyRound(storeLimit, [], key, n, 0, most, w, to, 0);
    assert [] + first == first;
    KeyAlone(storeLimit, n, key, most, w);
    FillersCrowd(storeLimit, first, key, storeLimit, v, Record(n, 0));
    PurgerRuns(storeLimit, Crowd(storeLimit, key, most, w, v), key, v, Record(n, 0), to, n);
    KeyRound(storeLimit, Crowd(storeLimit, key, most, w, v) + [Purger(storeLimit, key, v)], key, n, DropTime(v), most,
      w, to, n);
  }

  /** One limit and window for `key`, and any of `windows` for other keys. */
  ghost predicate Within(calls: seq<Call>, key: string, most: int, w: int, windows: set<int>) {
    forall c <- calls ::
      if c.key == key then c.maxRequests == most && c.windowSeconds == w else c.windowSeconds in windows
  }

  lemma EvasionIsWithin(storeLimit: nat, key: string, most: int, w: int, v: int)
    ensures var calls := Evasion(storeLimit, key, most, w, v); Ordered(calls) && Within(calls, key, most, w, {v})
  {
    var n, calls := Max(1, most), Evasion(storeLimit, key, most, w, v);
    KeyCallsAre(n, key, 0, most, w);
    KeyCallsAre(n, key, DropTime(v), most, w);
    FillerCallsAre(storeLimit, key, v);
    forall i | 0 <= i < |calls|
      ensures calls[i].arrived == calls[i].now == if i < n + storeLimit then 0 else DropTime(v)
      ensures if calls[i].key == key then calls[i].maxRequests == most && calls[i].windowSeconds == w
              else calls[i].windowSeconds == v
    {
    }
  }

  /** A shorter window on other keys breaks the bound, for every limit, window and store
      limit: the purge of a call, made with its own window, drops a used-up record that is
      still in its window. */
  lemma ShorterWindowBreaksTheBound(storeLimit: nat, key: string, most: int, w: int, v: int)
    requires 1 <= w && v < w
    ensures var calls := Evasion(storeLimit, key, most, w, v);
      && Ordered(calls) && Within(calls, key, most, w, {v})
      && CountIn(Allowed(storeLimit, calls, key), 0, w * SECOND) > 2 * Max(1, most) - 1
  {
    EvasionIsWithin(storeLimit, key, most, w, v);
    EvasionAllowed(storeLimit, key, most, w, v);
  }

  ghost predicate BoundedFrom(storeLimit: nat, calls: seq<Call>, key: string, most: int, w: int, from: int) {
    CountIn(Allowed(storeLimit, calls, key), from, from + w * SECOND) <= 2 * Max(1, most) - 1
  }

  /** The bound of `SlidingBound`, on every run within the policy. */
  ghost predicate PolicyBounded(storeLimit: nat, key: string, most: int, w: int, windows: set<int>) {
    forall calls, from | Ordered(calls) && Within(calls, key, most, w, windows) ::
      BoundedFrom(storeLimit, calls, key, most, w, from)
  }

  /** The bound holds on all runs exactly when no other key may have a shorter window. */
  lemma BoundedExactlyWithoutShorterWindows(storeLimit: nat, key: string, most: int, w: int, windows: set<int>)
    requires 1 <= w
    ensures PolicyBounded(storeLimit, key, most, w, windows) <==> forall v <- windows :: w <= v
  {
    if v :| v in windows && v < w {
      var calls := Evasion(storeLimit, key, most, w, v);
      ShorterWindowBreaksTheBound(storeLimit, key, most, w, v);
      assert Within(calls, key, most, w, windows);
      assert 0 + w * SECOND == w * SECOND;
      assert !BoundedFrom(storeLimit, calls, key, most, w, 0);
    } else {
      forall calls, from | Ordered(calls) && Within(calls, key, most, w, windows)
        ensures BoundedFrom(storeLimit, calls, key, most, w, from)
      {
        SlidingBound(storeLimit, calls, key, most, w, from);
      }
    }
  }

  // ---------- What every reply says ----------

  /** For each key, the position in the run of the call that opened its current window; `c`
      comes after `calls`. A window is over for a call of its key once it began before the
      call's window start; for all keys, if more than `storeLimit` have one, also once it
      began at that start. */
  function NextOpeners(openers: map<string, nat>, storeLimit: nat, calls: seq<Call>, c: Call): map<string, nat>
    requires forall k <- openers :: openers[k] < |calls|
  {
    var left := if |openers| <= storeLimit then openers else BeganAfter(openers, calls, c.WindowStart());
    if c.key in left && c.WindowStart() <= calls[left[c.key]].now then left else left[c.key := |calls|]
  }

  function BeganAfter(openers: map<string, nat>, calls: seq<Call>, start: int): map<string, nat>
    requires forall k <- openers :: openers[k] < |calls|
  {
    map k | k in openers && start < calls[openers[k]].now :: openers[k]
  }

  function Openers(storeLimit: nat, calls: seq<Call>): (openers: map<string, nat>)
    ensures forall k <- openers :: openers[k] < |calls|
  {
    if calls == [] then map[]
    else
      var init := calls[..|calls| - 1];
      NextOpeners(Openers(storeLimit, init), storeLimit, init, calls[|calls| - 1])
  }

  /** How many calls of a key there are from a position of the run on. */
  function CallsFrom(calls: seq<Call>, key: string, from: nat): nat {
    if |calls| <= from then 0
    else CallsFrom(calls[..|calls| - 1], key, from) + if calls[|calls| - 1].key == key then 1 else 0
  }

  /** The store holds the keys that have a window, each with its calls since that opened. */
  ghost predicate Tallies(store: Store, calls: seq<Call>, openers: map<string, nat>) {
    && store.Keys == openers.Keys
    && forall k <- openers ::
         && openers[k] < |calls| && 1 <= store[k].count
         && store[k] == Record(CallsFrom(calls, k, openers[k]), calls[openers[k]].now)
  }

  lemma PurgeTallies(store: Store, storeLimit: nat, calls: seq<Call>, openers: map<string, nat>, start: int)
    requires Tallies(store, calls, openers)
    ensures Tallies(Purge(store, storeLimit, start), calls,
                    if |openers| <= storeLimit then openers else BeganAfter(openers, calls, start))
  {
    assert |store| == |store.Keys| && |openers| == |openers.Keys|;
  }

  lemma CallsFromMore(calls: seq<Call>, c: Call, key: string, from: nat)
    requires from <= |calls|
    ensures CallsFrom(calls + [c], key, from) == CallsFrom(calls, key, from) + if c.key == key then 1 else 0
  {
    assert (calls + [c])[..|calls|] == calls;
  }

  lemma OtherTally(store: Store, calls: seq<Call>, openers: map<string, nat>, c: Call, k: string)
    requires Tallies(store, calls, openers) && k in openers && k != c.key
    ensures store[k] == Record(CallsFrom(calls + [c], k, openers[k]), (calls + [c])[openers[k]].now)
  {
    CallsFromMore(calls, c, k, openers[k]);
  }

  /** The call counts in the window of its key, or opens one. */
  lemma OwnTally(store: Store, calls: seq<Call>, openers: map<string, nat>, c: Call, opens: bool, r: Record)
    requires Tallies(store, calls, openers) && (!opens ==> c.key in store)
    requires r == if opens then Record(1, c.now) else Record(store[c.key].count + 1, store[c.key].firstSeen)
    ensures Tallies(store[c.key := r], calls + [c], if opens then openers[c.key := |calls|] else openers)
  {
    var next := if opens then openers[c.key := |calls|] else openers;
    CallsFromMore(calls, c, c.key, next[c.key]);
    forall k <- next | k != c.key
      ensures store[k] == Record(CallsFrom(calls + [c], k, next[k]), (calls + [c])[next[k]].now)
    {
      OtherTally(store, calls, openers, c, k);
    }
  }

  lemma CallTallies(store: Store, storeLimit: nat, calls: seq<Call>, openers: map<string, nat>, c: Call)
    requires Tallies(store, calls, openers)
    ensures Tallies(Check(store, storeLimit, c).0, calls + [c], NextOpeners(openers, storeLimit, calls, c))
  {
    PurgeTallies(store, storeLimit, calls, openers, c.WindowStart());
    var s := Purge(store, storeLimit, c.WindowStart());
    var left := if |openers| <= storeLimit then openers else BeganAfter(openers, calls, c.WindowStart());
    OwnTally(s, calls, left, c, Opens(s, c), Check(store, storeLimit, c).0[c.key]);
  }

  lemma TalliesMore(storeLimit: nat, calls: seq<Call>, c: Call)
    ensures Tallies(Run(storeLimit, calls), calls, Openers(storeLimit, calls)) ==>
      Tallies(Run(storeLimit, calls + [c]), calls + [c], Openers(storeLimit, calls + [c]))
  {
    var store, openers := Run(storeLimit, calls), Openers(storeLimit, calls);
    assert (calls + [c])[..|calls|] == calls;
    if Tallies(store, calls, openers) { CallTallies(store, storeLimit, calls, openers, c); }
  }

  lemma {:induction false} RunTallies(storeLimit: nat, calls: seq<Call>)
    ensures Tallies(Run(storeLimit, calls), calls, Openers(storeLimit, calls))
  {
    if calls != [] {
      var init, c := calls[..|calls| - 1], calls[|calls| - 1];
      RunTallies(storeLimit, init);
      TalliesMore(storeLimit, init, c);
      assert init + [c] == calls;
    }
  }

  /** With `n` the calls of the key since its window opened, this one included, and `end` the
      end of that window: the call is refused when `n` exceeds the limit, unless it is the
      first; what remains is the limit less `n`; and the reset is the whole window, or for a
      refusal the whole seconds that are left of it. */
  predicate Says(r: Reply, c: Call, n: int, end: int) {
    && 1 <= n && r.limit == c.maxRequests
    && (r.allowed <==> n == 1 || n <= c.maxRequests)
    && (r.allowed ==> r.remaining == c.maxRequests - n && r.reset == c.windowSeconds)
    && (!r.allowed ==> r.remaining == 0 && r.reset == Max(0, end - c.now) / SECOND)
  }

  lemma CheckReplies(store: Store, storeLimit: nat, c: Call)
    requires c.key in store ==> 1 <= store[c.key].count
    ensures var (after, r) := Check(store, storeLimit, c);
      c.key in after && Says(r, c, after[c.key].count, after[c.key].firstSeen + c.Window())
  {
  }

  lemma ReplyTallies(store: Store, storeLimit: nat, c: Call, init: seq<Call>, before: map<string, nat>,
        calls: seq<Call>, openers: map<string, nat>)
    ensures var (after, r) := Check(store, storeLimit, c);
      Tallies(store, init, before) && Tallies(after, calls, openers) ==>
        && c.key in openers && openers[c.key] < |calls|
        && Says(r, c, CallsFrom(calls, c.key, openers[c.key]), calls[openers[c.key]].now + c.Window())
  {
    if Tallies(store, init, before) { CheckReplies(store, storeLimit, c); }
  }

  lemma RunOne(storeLimit: nat, calls: seq<Call>)
    requires calls != []
    ensures var store, c := Run(storeLimit, calls[..|calls| - 1]), calls[|calls| - 1];
      Check(store, storeLimit, c) == (Run(storeLimit, calls), LastReply(storeLimit, calls))
  {
  }

  /** Every reply of a run, in full: it says how many calls of the key there were since its
      window opened. */
  lemma RepliesTally(storeLimit: nat, calls: seq<Call>)
    requires calls != []
    ensures var c, openers := calls[|calls| - 1], Openers(storeLimit, calls);
      && c.key in openers
      && Says(LastReply(storeLimit, calls), c, CallsFrom(calls, c.key, openers[c.key]),
              calls[openers[c.key]].now + c.Window())
  {
    var init, c := calls[..|calls| - 1], calls[|calls| - 1];
    RunTallies(storeLimit, init);
    RunTallies(storeLimit, calls);
    RunOne(storeLimit, calls);
    ReplyTallies(Run(storeLimit, init), storeLimit, c, init, Openers(storeLimit, init), calls,
      Openers(storeLimit, calls));
  }

  // ---------- The Redis counter ----------

  datatype Counter = Counter(count: nat, expires: int)

  type Counters = map<string, Counter>

  datatype Verdict = Verdict(allowed: bool, remaining: int)

  /** Whether a key is gone at the very instant its time to live ends is left open:
      `inclusive` says that it is. */
  predicate Live(redis: Counters, inclusive: bool, key: string, now: int) {
    key in redis && if inclusive then now < redis[key].expires else now <= redis[key].expires
  }

  /** `_check_redis`: INCR, and EXPIRE only when that created the counter. */
  function CheckRedis(redis: Counters, inclusive: bool, c: Call): (Counters, Verdict) {
    var counter :=
      if Live(redis, inclusive, c.key, c.now) then redis[c.key].(count := redis[c.key].count + 1)
      else Counter(1, c.now + c.Window());
    (redis[c.key := counter],
     if counter.count > c.maxRequests then Verdict(false, 0)
     else Verdict(true, Max(0, c.maxRequests - counter.count)))
  }

  function RunRedis(inclusive: bool, calls: seq<Call>): Counters {
    if calls == [] then map[]
    else CheckRedis(RunRedis(inclusive, calls[..|calls| - 1]), inclusive, calls[|calls| - 1]).0
  }

  function MemoryVerdict(storeLimit: nat, calls: seq<Call>): Verdict
    requires calls != []
  {
    var r := LastReply(storeLimit, calls);
    Verdict(r.allowed, r.remaining)
  }

  function RedisVerdict(inclusive: bool, calls: seq<Call>): Verdict
    requires calls != []
  {
    CheckRedis(RunRedis(inclusive, calls[..|calls| - 1]), inclusive, calls[|calls| - 1]).1
  }

  /** Every record has a counter with its count and its end; a counter without a record
      has ended. */
  ghost predicate Agree(store: Store, redis: Counters, window: int, now: int) {
    && (forall k <- store :: k in redis && redis[k] == Counter(store[k].count, store[k].firstSeen + window))
    && (forall k <- redis :: redis[k].count >= 1 && (k !in store ==> redis[k].expires <= now))
  }

  /** The call sees its window end in one back end and not in the other: the counter ends
      between the two clock readings, or at an instant that the two treat differently. */
  predicate Crosses(store: Store, storeLimit: nat, redis: Counters, inclusive: bool, c: Call) {
    c.key in redis &&
      var end := redis[c.key].expires;
      if c.key !in store || (|store| > storeLimit && end == c.arrived) then !inclusive && end == c.now
      else c.arrived <= end && (end < c.now || (inclusive && end == c.now))
  }

  /** One call on agreeing states: the verdicts are equal exactly when it does not cross. */
  lemma {:induction false} CallAgrees(store: Store, storeLimit: nat, redis: Counters, inclusive: bool, last: int,
      c: Call)
    requires Agree(store, redis, c.Window(), last) && last <= c.now && c.arrived <= c.now && 1 <= c.maxRequests
    ensures var (store', reply) := Check(store, storeLimit, c);
      var (redis', verdict) := CheckRedis(redis, inclusive, c);
      && (verdict == Verdict(reply.allowed, reply.remaining) <==> !Crosses(store, storeLimit, redis, inclusive, c))
      && (!Crosses(store, storeLimit, redis, inclusive, c) ==> Agree(store', redis', c.Window(), c.now))
  {
    var s := Purge(store, storeLimit, c.WindowStart());
    assert Agree(s, redis, c.Window(), c.now);
    assert Crosses(store, storeLimit, redis, inclusive, c) <==> (Opens(s, c) <==> Live(redis, inclusive, c.key, c.now));
  }

  /** In particular at exactly the end of a window: the verdicts are equal exactly if both
      back ends treat the instant as over, the store because it is being purged, or
      neither does. */
  lemma VerdictsAtTheEnd(store: Store, storeLimit: nat, redis: Counters, inclusive: bool, last: int, c: Call)
    requires Agree(store, redis, c.Window(), last) && last <= c.now && 1 <= c.maxRequests
    requires c.key in store && c.arrived == c.now == store[c.key].firstSeen + c.Window()
    ensures var reply, verdict := Check(store, storeLimit, c).1, CheckRedis(redis, inclusive, c).1;
      verdict == Verdict(reply.allowed, reply.remaining) <==> (inclusive <==> |store| > storeLimit)
  {
    CallAgrees(store, storeLimit, redis, inclusive, last, c);
  }

  /** One window on all calls, and limits of at least 1. */
  ghost predicate Uniform(calls: seq<Call>, windowSeconds: int) {
    forall c <- calls :: c.windowSeconds == windowSeconds && 1 <= c.maxRequests
  }

  ghost predicate NeverCrosses(storeLimit: nat, inclusive: bool, calls: seq<Call>) {
    calls != [] ==>
      var init, c := calls[..|calls| - 1], calls[|calls| - 1];
      && NeverCrosses(storeLimit, inclusive, init)
      && !Crosses(Run(storeLimit, init), storeLimit, RunRedis(inclusive, init), inclusive, c)
  }

  /** The two back ends answer request `i` of a run alike. */
  predicate SameAt(storeLimit: nat, inclusive: bool, calls: seq<Call>, i: nat)
    requires i < |calls|
  {
    MemoryVerdict(storeLimit, calls[..i + 1]) == RedisVerdict(inclusive, calls[..i + 1])
  }

  lemma {:induction false} RunsAgree(storeLimit: nat, inclusive: bool, calls: seq<Call>, windowSeconds: int, now: int)
    requires Ordered(calls) && NeverCrosses(storeLimit, inclusive, calls) && Uniform(calls, windowSeconds)
    requires forall c <- calls :: c.now <= now
    ensures Agree(Run(storeLimit, calls), RunRedis(inclusive, calls), windowSeconds * SECOND, now)
  {
    if calls != [] {
      var init, c := calls[..|calls| - 1], calls[|calls| - 1];
      Init(calls);
      RunsAgree(storeLimit, inclusive, init, windowSeconds, c.now);
      CallAgrees(Run(storeLimit, init), storeLimit, RunRedis(inclusive, init), inclusive, c.now, c);
    }
  }

  ghost predicate AllSame(storeLimit: nat, inclusive: bool, calls: seq<Call>) {
    forall i | 0 <= i < |calls| :: SameAt(storeLimit, inclusive, calls, i)
  }

  lemma AllSameMore(storeLimit: nat, inclusive: bool, calls: seq<Call>)
    requires calls != []
    ensures AllSame(storeLimit, inclusive, calls) <==>
      AllSame(storeLimit, inclusive, calls[..|calls| - 1]) && SameAt(storeLimit, inclusive, calls, |calls| - 1)
  {
    var init := calls[..|calls| - 1];
    forall i | 0 <= i < |init|
      ensures SameAt(storeLimit, inclusive, calls, i) <==> SameAt(storeLimit, inclusive, init, i)
    {
      assert init[..i + 1] == calls[..i + 1];
    }
  }

  lemma SameAtLast(storeLimit: nat, inclusive: bool, calls: seq<Call>, windowSeconds: int)
    requires calls != [] && Ordered(calls) && Uniform(calls, windowSeconds)
    requires NeverCrosses(storeLimit, inclusive, calls[..|calls| - 1])
    ensures SameAt(storeLimit, inclusive, calls, |calls| - 1) <==> NeverCrosses(storeLimit, inclusive, calls)
  {
    var init, c := calls[..|calls| - 1], calls[|calls| - 1];
    Init(calls);
    RunsAgree(storeLimit, inclusive, init, windowSeconds, c.now);
    CallAgrees(Run(storeLimit, init), storeLimit, RunRedis(inclusive, init), inclusive, c.now, c);
    assert calls[..|init| + 1] == calls;
  }

  /** On any run with one window on all calls and limits of at least 1, the Redis counter
      and the in-memory record answer every request alike exactly when no call crosses. */
  lemma {:induction false} BackendsAgree(storeLimit: nat, inclusive: bool, calls: seq<Call>, windowSeconds: int)
    requires Ordered(calls) && Uniform(calls, windowSeconds)
    ensures AllSame(storeLimit, inclusive, calls) <==> NeverCrosses(storeLimit, inclusive, calls)
  {
    if calls != [] {
      Init(calls);
      BackendsAgree(storeLimit, inclusive, calls[..|calls| - 1], windowSeconds);
      AllSameMore(storeLimit, inclusive, calls);
      if NeverCrosses(storeLimit, inclusive, calls[..|calls| - 1]) {
        SameAtLast(storeLimit, inclusive, calls, windowSeconds);
      }
    }
  }

  /** One clock reading per call, and no call at the instant its counter ends. */
  ghost predicate OffTheEnds(inclusive: bool, calls: seq<Call>) {
    calls != [] ==>
      var init, c := calls[..|calls| - 1], calls[|calls| - 1];
      && OffTheEnds(inclusive, init) && c.arrived == c.now
      && (c.key in RunRedis(inclusive, init) ==> RunRedis(inclusive, init)[c.key].expires != c.now)
  }

  lemma {:induction false} OffTheEndsNeverCrosses(storeLimit: nat, inclusive: bool, calls: seq<Call>)
    requires OffTheEnds(inclusive, calls)
    ensures NeverCrosses(storeLimit, inclusive, calls)
  {
    if calls != [] { OffTheEndsNeverCrosses(storeLimit, inclusive, calls[..|calls| - 1]); }
  }

  /** So the back ends agree on all calls that are not made at the end of a window. */
  lemma BackendsAgreeOffTheEnds(storeLimit: nat, inclusive: bool, calls: seq<Call>, windowSeconds: int)
    requires Ordered(calls) && Uniform(calls, windowSeconds) && OffTheEnds(inclusive, calls)
    ensures AllSame(storeLimit, inclusive, calls)
  {
    OffTheEndsNeverCrosses(storeLimit, inclusive, calls);
    BackendsAgree(storeLimit, inclusive, calls, windowSeconds);
  }

  // ---------- The purge ----------

  /** Two stores of the same calls, purged at different sizes: they differ only in records
      whose window is over. */
  ghost predicate Twins(s: Store, t: Store, window: int, now: int) {
    && (forall k <- s :: s[k].count >= 1 && (k in t ==> t[k] == s[k]) && (k !in t ==> s[k].firstSeen + window <= now))
    && (forall k <- t :: t[k].count >= 1 && (k !in s ==> t[k].firstSeen + window <= now))
  }

  /** The call still counts in a record of this store. */
  predicate Counts(s: Store, storeLimit: nat, c: Call) {
    c.key in s && c.WindowStart() <= s[c.key].firstSeen
    && (|s| > storeLimit ==> c.WindowStart() != s[c.key].firstSeen)
  }

  /** The call can tell which of the stores was purged: one has a record left whose window,
      by the earlier clock reading, is not over; or both have one that ends at exactly that
      reading, and only one of them is being purged. */
  predicate PurgeTells(s: Store, storeLimit: nat, t: Store, storeLimit': nat, c: Call) {
    if c.key in s && c.key in t then
      s[c.key].firstSeen == c.WindowStart() && (|s| > storeLimit) != (|t| > storeLimit')
    else Counts(s, storeLimit, c) || Counts(t, storeLimit', c)
  }

  lemma TwinsAgree(s: Store, storeLimit: nat, t: Store, storeLimit': nat, last: int, c: Call)
    requires Twins(s, t, c.Window(), last) && last <= c.now && c.arrived <= c.now && 1 <= c.maxRequests
    ensures var (s', r) := Check(s, storeLimit, c);
      var (t', q) := Check(t, storeLimit', c);
      && (r.allowed == q.allowed && r.remaining == q.remaining <==> !PurgeTells(s, storeLimit, t, storeLimit', c))
      && (!PurgeTells(s, storeLimit, t, storeLimit', c) ==> Twins(s', t', c.Window(), c.now))
  {
    var s1, t1 := Purge(s, storeLimit, c.WindowStart()), Purge(t, storeLimit', c.WindowStart());
    assert Twins(s1, t1, c.Window(), c.now);
    assert Opens(s1, c) <==> !Counts(s, storeLimit, c);
    assert Opens(t1, c) <==> !Counts(t, storeLimit', c);
  }

  ghost predicate PurgeNeverTells(storeLimit: nat, storeLimit': nat, calls: seq<Call>) {
    calls != [] ==>
      var init, c := calls[..|calls| - 1], calls[|calls| - 1];
      && PurgeNeverTells(storeLimit, storeLimit', init)
      && !PurgeTells(Run(storeLimit, init), storeLimit, Run(storeLimit', init), storeLimit', c)
  }

  predicate SamePurged(storeLimit: nat, storeLimit': nat, calls: seq<Call>, i: nat)
    requires i < |calls|
  {
    MemoryVerdict(storeLimit, calls[..i + 1]) == MemoryVerdict(storeLimit', calls[..i + 1])
  }

  lemma {:induction false} RunsAreTwins(storeLimit: nat, storeLimit': nat, calls: seq<Call>, windowSeconds: int,
      now: int)
    requires Ordered(calls) && PurgeNeverTells(storeLimit, storeLimit', calls) && Uniform(calls, windowSeconds)
    requires forall c <- calls :: c.now <= now
    ensures Twins(Run(storeLimit, calls), Run(storeLimit', calls), windowSeconds * SECOND, now)
  {
    if calls != [] {
      var init, c := calls[..|calls| - 1], calls[|calls| - 1];
      Init(calls);
      RunsAreTwins(storeLimit, storeLimit', init, windowSeconds, c.now);
      TwinsAgree(Run(storeLimit, init), storeLimit, Run(storeLimit', init), storeLimit', c.now, c);
    }
  }

  ghost predicate AllSamePurged(storeLimit: nat, storeLimit': nat, calls: seq<Call>) {
    forall i | 0 <= i < |calls| :: SamePurged(storeLimit, storeLimit', calls, i)
  }

  lemma AllSamePurgedMore(storeLimit: nat, storeLimit': nat, calls: seq<Call>)
    requires calls != []
    ensures AllSamePurged(storeLimit, storeLimit', calls) <==>
      && AllSamePurged(storeLimit, storeLimit', calls[..|calls| - 1])
      && SamePurged(storeLimit, storeLimit', calls, |calls| - 1)
  {
    var init := calls[..|calls| - 1];
    forall i | 0 <= i < |init|
      ensures SamePurged(storeLimit, storeLimit', calls, i) <==> SamePurged(storeLimit, storeLimit', init, i)
    {
      assert init[..i + 1] == calls[..i + 1];
    }
  }

  /** Two stores answer a call alike. */
  predicate SameReply(s: Store, storeLimit: nat, t: Store, storeLimit': nat, c: Call) {
    var r, q := Check(s, storeLimit, c).1, Check(t, storeLimit', c).1;
    r.allowed == q.allowed && r.remaining == q.remaining
  }

  lemma TwinsReply(s: Store, storeLimit: nat, t: Store, storeLimit': nat, c: Call)
    ensures Twins(s, t, c.Window(), c.now) && c.arrived <= c.now && 1 <= c.maxRequests ==>
      (SameReply(s, storeLimit, t, storeLimit', c) <==> !PurgeTells(s, storeLimit, t, storeLimit', c))
  {
    if Twins(s, t, c.Window(), c.now) && c.arrived <= c.now && 1 <= c.maxRequests {
      TwinsAgree(s, storeLimit, t, storeLimit', c.now, c);
    }
  }

  lemma SamePurgedReply(storeLimit: nat, storeLimit': nat, calls: seq<Call>)
    requires calls != []
    ensures var init, c := calls[..|calls| - 1], calls[|calls| - 1];
      SamePurged(storeLimit, storeLimit', calls, |calls| - 1)
      <==> SameReply(Run(storeLimit, init), storeLimit, Run(storeLimit', init), storeLimit', c)
  {
    assert calls[..|calls| - 1 + 1] == calls;
  }

  lemma SamePurgedLast(storeLimit: nat, storeLimit': nat, calls: seq<Call>, windowSeconds: int)
    requires calls != [] && Ordered(calls) && Uniform(calls, windowSeconds)
    requires PurgeNeverTells(storeLimit, storeLimit', calls[..|calls| - 1])
    ensures SamePurged(storeLimit, storeLimit', calls, |calls| - 1) <==> PurgeNeverTells(storeLimit, storeLimit', calls)
  {
    var init, c := calls[..|calls| - 1], calls[|calls| - 1];
    Init(calls);
    RunsAreTwins(storeLimit, storeLimit', init, windowSeconds, c.now);
    TwinsReply(Run(storeLimit, init), storeLimit, Run(storeLimit', init), storeLimit', c);
    SamePurgedReply(storeLimit, storeLimit', calls);
  }

  /** Purging at one size or another changes no answer of a run exactly when no call can
      tell the difference. */
  lemma {:induction false} PurgeChangesNoAnswer(storeLimit: nat, storeLimit': nat, calls: seq<Call>, windowSeconds: int)
    requires Ordered(calls) && Uniform(calls, windowSeconds)
    ensures AllSamePurged(storeLimit, storeLimit', calls) <==> PurgeNeverTells(storeLimit, storeLimit', calls)
  {
    if calls != [] {
      Init(calls);
      PurgeChangesNoAnswer(storeLimit, storeLimit', calls[..|calls| - 1], windowSeconds);
      AllSamePurgedMore(storeLimit, storeLimit', calls);
      if PurgeNeverTells(storeLimit, storeLimit', calls[..|calls| - 1]) {
        SamePurgedLast(storeLimit, storeLimit', calls, windowSeconds);
      }
    }
  }

  // ---------- Where the hypotheses are needed ----------

  /** At exactly `first_seen + window` the reset keeps a record that the purge drops: the
      same request is counted in the old window below the store limit, and opens a new
      one above it. */
  lemma PurgeAtTheBoundary(store: Store, storeLimit: nat, c: Call)
    requires c.key in store && store[c.key].firstSeen == c.WindowStart()
    ensures Check(store, storeLimit, c).0[c.key] ==
      if |store| > storeLimit then Record(1, c.now) else Record(store[c.key].count + 1, store[c.key].firstSeen)
  {
  }

  /** The purge uses the caller's own window: after a call on another key, a used-up key
      that is still in its window passes exactly when the store was over its limit and the
      other call's window is shorter than the age of the record. */
  lemma MixedWindowsEvade(store: Store, storeLimit: nat, other: Call, c: Call)
    requires c.key in store && other.key != c.key
    requires store[c.key].count >= c.maxRequests && c.WindowStart() < store[c.key].firstSeen
    ensures Check(Check(store, storeLimit, other).0, storeLimit, c).1.allowed
      <==> |store| > storeLimit && store[c.key].firstSeen <= other.WindowStart()
  {
  }

  /** The `reset` of a refused request, sent as Retry-After: a retry is allowed exactly
      when it arrives after the end of the window, or at its very end while the store is
      being purged. So waiting one second more than `reset` is always enough, and waiting
      exactly a positive `reset` only during a purge and if whole seconds were left. */
  lemma RetryAfter(store: Store, storeLimit: nat, c: Call, retry: Call)
    requires !Check(store, storeLimit, c).1.allowed && c.arrived <= c.now
    requires retry.key == c.key && retry.windowSeconds == c.windowSeconds && retry.maxRequests == c.maxRequests >= 1
    ensures var (after, refusal) := Check(store, storeLimit, c);
      && c.key in after
      && var end, allowed := after[c.key].firstSeen + c.Window(), Check(after, storeLimit, retry).1.allowed;
      && (allowed <==> retry.arrived > end || (|after| > storeLimit && retry.arrived == end))
      && (retry.arrived >= c.now + (refusal.reset + 1) * SECOND ==> allowed)
      && (retry.arrived == c.now + refusal.reset * SECOND && refusal.reset > 0 ==>
            (allowed <==> |after| > storeLimit && (end - c.now) % SECOND == 0))
  {
  }

  // ---------- The limiter on mutable state ----------

  class AsyncRateLimiter {
    var inMemoryStore: Store

    constructor ()
      ensures inMemoryStore == map[]
    {
      inMemoryStore := map[];
    }

    method CheckInMemory(c: Call) returns (reply: Reply)
      modifies this
      ensures (inMemoryStore, reply) == Check(old(inMemoryStore), 10_000, c)
      ensures reply.limit == c.maxRequests && c.key in inMemoryStore
      ensures !reply.allowed ==> inMemoryStore[c.key].count > c.maxRequests
      ensures reply.allowed ==> inMemoryStore[c.key].count == 1 || inMemoryStore[c.key].count <= c.maxRequests
      ensures reply.allowed ==>
        reply.remaining == c.maxRequests - inMemoryStore[c.key].count && reply.reset == c.windowSeconds
      ensures !reply.allowed ==> reply.remaining == 0
    {
      var windowStart := c.WindowStart();
      if |inMemoryStore| > STORE_LIMIT {
        inMemoryStore := map k | k in inMemoryStore && inMemoryStore[k].firstSeen > windowStart :: inMemoryStore[k];
      }
      if c.key !in inMemoryStore {
        inMemoryStore := inMemoryStore[c.key := Record(1, c.now)];
        return Reply(true, c.maxRequests, c.maxRequests - 1, c.windowSeconds);
      }
      var record := inMemoryStore[c.key];
      if record.firstSeen < windowStart {
        inMemoryStore := inMemoryStore[c.key := Record(1, c.now)];
        return Reply(true, c.maxRequests, c.maxRequests - 1, c.windowSeconds);
      }
      record := record.(count := record.count + 1);
      inMemoryStore := inMemoryStore[c.key := record];
      if record.count > c.maxRequests {
        var resetIn := record.firstSeen + c.Window() - c.now;
        return Reply(false, c.maxRequests, 0, Max(0, resetIn) / SECOND);
      }
      return Reply(true, c.maxRequests, c.maxRequests - record.count, c.windowSeconds);
    }

    /** The administrator's reset of one key: in Redis if it is connected, else here. */
    method Reset(key: string, connected: bool, redis: RedisServer)
      modifies this, redis`counters
      ensures inMemoryStore == if connected then old(inMemoryStore) else old(inMemoryStore) - {key}
      ensures redis.counters == if connected then old(redis.counters) - {key} else old(redis.counters)
    {
      if connected {
        redis.Delete(key);
      } else {
        if key in inMemoryStore {
          inMemoryStore := inMemoryStore - {key};
        }
      }
    }
  }

  class RedisServer {
    const inclusive: bool
    var counters: Counters

    constructor (inclusive: bool)
      ensures this.inclusive == inclusive && counters == map[]
    {
      this.inclusive := inclusive;
      counters := map[];
    }

    method Delete(key: string)
      modifies this`counters
      ensures counters == old(counters) - {key}
    {
      counters := counters - {key};
    }

    /** The Lua script: INCR, then EXPIRE if this created the counter. */
    method IncrScript(key: string, window: int, now: int) returns (current: nat)
      requires forall k <- counters :: counters[k].count >= 1
      modifies this`counters
      ensures Live(old(counters), inclusive, key, now) ==>
        current == old(counters)[key].count + 1 && counters == old(counters)[key := Counter(current,
          old(counters)[key].expires)]
      ensures !Live(old(counters), inclusive, key, now) ==>
        current == 1 && counters == old(counters)[key := Counter(1, now + window)]
    {
      var counter := Counter(1, now);   // no time to live yet
      if Live(counters, inclusive, key, now) {
        counter := counters[key].(count := counters[key].count + 1);
      }
      if counter.count == 1 {
        counter := counter.(expires := now + window);
      }
      counters := counters[key := counter];
      return counter.count;
    }

    method CheckCall(c: Call) returns (verdict: Verdict)
      requires forall k <- counters :: counters[k].count >= 1
      modifies this`counters
      ensures (counters, verdict) == CheckRedis(old(counters), inclusive, c)
      ensures forall k <- counters :: counters[k].count >= 1
      ensures c.key in counters && (verdict.allowed <==> counters[c.key].count <= c.maxRequests)
      ensures verdict.remaining == if verdict.allowed then c.maxRequests - counters[c.key].count else 0
    {
      var current := IncrScript(c.key, c.Window(), c.now);
      var remaining := Max(0, c.maxRequests - current);
      if current > c.maxRequests {
        return Verdict(false, 0);
      }
      return Verdict(true, remaining);
    }
  }
}
