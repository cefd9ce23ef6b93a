/** Webhook idempotency: the check, record and cleanup protocol of `TriggerRepository`
    over the table of trigger invocations.

    A request is a duplicate by its idempotency key or by its payload hash; the table
    also refuses a second row with the same key. `AtMostOncePerDay` holds of every serial
    run, with cleanups anywhere; `NoLookupSeesTwo` completes it. `RowsStayUntilRemoved` says
    which rows cleanups leave, `CleanupsChangeNothingRecorded` and `CleanupsAreInvisible`
    exactly when they change nothing over a whole run, and `CleanupUnblocksAKey` shows one
    that does. `PassedButRefused` says exactly when a request that passed the check cannot
    be recorded, and `LookupsRaiseExactly` when a lookup raises, however requests
    interleave. */
module TriggerInvocations {
  import opened Options

  // Times are microseconds.
  const HOUR := 3_600_000_000
  const DAY := 24 * HOUR

  datatype Invocation = Invocation(trigger: string, key: Option<string>, hash: string, created: int, expires: int)

  type Table = seq<Invocation>

  /** A webhook call; its payload is known by its SHA-256 hash. */
  datatype Request = Request(trigger: string, key: Option<string>, hash: string)

  // ---------- Selecting rows ----------

  function Select(rows: Table, p: Invocation -> bool): Table {
    if rows == [] then []
    else
      var rest := Select(rows[..|rows| - 1], p);
      if p(rows[|rows| - 1]) then rest + [rows[|rows| - 1]] else rest
  }

  lemma {:induction false} SelectExact(rows: Table, p: Invocation -> bool)
    ensures forall r :: r in Select(rows, p) <==> r in rows && p(r)
  {
    if rows != [] {
      SelectExact(rows[..|rows| - 1], p);
      assert rows == rows[..|rows| - 1] + [rows[|rows| - 1]];
    }
  }

  lemma {:induction false} SelectTwo(rows: Table, p: Invocation -> bool) returns (i: nat, j: nat)
    requires |Select(rows, p)| >= 2
    ensures i < j < |rows| && p(rows[i]) && p(rows[j])
  {
    var init := rows[..|rows| - 1];
    if |Select(init, p)| >= 2 {
      i, j := SelectTwo(init, p);
    } else {
      SelectExact(init, p);
      assert Select(init, p)[0] in Select(init, p);
      i :| 0 <= i < |init| && init[i] == Select(init, p)[0];
      j := |rows| - 1;
    }
  }

  lemma {:induction false} SelectPair(rows: Table, p: Invocation -> bool)
    ensures |Select(rows, p)| >= 2 <==> exists i, j | 0 <= i < j < |rows| :: p(rows[i]) && p(rows[j])
  {
    if |Select(rows, p)| >= 2 {
      var i, j := SelectTwo(rows, p);
    }
    if i, j :| 0 <= i < j < |rows| && p(rows[i]) && p(rows[j]) {
      var init, last := rows[..|rows| - 1], rows[|rows| - 1];
      if j < |init| {
        SelectPair(init, p);
        assert init[i] == rows[i] && init[j] == rows[j];
      } else {
        SelectExact(init, p);
        assert init[i] == rows[i] && init[i] in Select(init, p);
      }
    }
  }

  lemma {:induction false} SelectTwice(rows: Table, p: Invocation -> bool, q: Invocation -> bool)
    requires forall r <- rows :: p(r) ==> q(r)
    ensures Select(Select(rows, q), p) == Select(rows, p)
  {
    if rows != [] {
      var init, last := rows[..|rows| - 1], rows[|rows| - 1];
      assert last in rows && forall r <- init :: r in rows;
      SelectTwice(init, p, q);
      if q(last) {
        assert (Select(init, q) + [last])[..|Select(init, q)|] == Select(init, q);
      }
    }
  }

  /** `scalar_one_or_none` on the selected rows. */
  datatype Scalar = NoRow | OneRow(row: Invocation) | MultipleResultsFound

  function ScalarOneOrNone(rows: Table): Scalar {
    if rows == [] then NoRow else if |rows| == 1 then OneRow(rows[0]) else MultipleResultsFound
  }

  // ---------- The repository's operations ----------

  function KeyMatch(req: Request, now: int): Invocation -> bool {
    (r: Invocation) => r.trigger == req.trigger && r.key == req.key && r.expires > now
  }

  function HashMatch(req: Request, now: int): Invocation -> bool {
    (r: Invocation) => r.trigger == req.trigger && r.hash == req.hash && r.created > now - DAY
  }

  /** An empty key counts as none. */
  predicate HasKey(req: Request) {
    req.key.Some? && req.key.value != ""
  }

  /** `check_idempotency`; the clock is read once for each of the two lookups. */
  function Check(rows: Table, req: Request, now1: int, now2: int): Scalar {
    var byKey := if HasKey(req) then ScalarOneOrNone(Select(rows, KeyMatch(req, now1))) else NoRow;
    if byKey != NoRow then byKey
    else ScalarOneOrNone(Select(rows, HashMatch(req, now2)))
  }

  predicate FoundByKey(r: Invocation, req: Request, now: int) {
    r.trigger == req.trigger && r.key == req.key && req.key.Some? && req.key.value != "" && now < r.expires
  }

  predicate FoundByHash(r: Invocation, req: Request, now: int) {
    r.trigger == req.trigger && r.hash == req.hash && now - DAY < r.created
  }

  ghost predicate TwoByKey(rows: Table, req: Request, now: int) {
    exists i, j | 0 <= i < j < |rows| :: FoundByKey(rows[i], req, now) && FoundByKey(rows[j], req, now)
  }

  ghost predicate TwoByHash(rows: Table, req: Request, now: int) {
    exists i, j | 0 <= i < j < |rows| :: FoundByHash(rows[i], req, now) && FoundByHash(rows[j], req, now)
  }

  /** The check finds nothing exactly when the table has no unexpired row with the key and
      none with the payload in the last 24 hours; it raises exactly when there are two of the
      former, or none and two of the latter; and a row it finds is one with the key if there
      is one, else one with the payload. */
  lemma CheckFindsExactly(rows: Table, req: Request, now1: int, now2: int)
    ensures var r, byKey := Check(rows, req, now1, now2), exists row <- rows :: FoundByKey(row, req, now1);
      && (r == NoRow <==> !byKey && forall row <- rows :: !FoundByHash(row, req, now2))
      && (r == MultipleResultsFound <==> if byKey then TwoByKey(rows, req, now1) else TwoByHash(rows, req, now2))
      && (r.OneRow? ==> r.row in rows && if byKey then FoundByKey(r.row, req, now1) else FoundByHash(r.row, req, now2))
  {
    var p, q := KeyMatch(req, now1), HashMatch(req, now2);
    SelectExact(rows, p);
    SelectExact(rows, q);
    SelectPair(rows, p);
    SelectPair(rows, q);
    forall row <- rows
      ensures row in Select(rows, p) <==> p(row)
      ensures row in Select(rows, q) <==> q(row)
    {
    }
    if Select(rows, p) != [] { assert Select(rows, p)[0] in Select(rows, p); }
    if Select(rows, q) != [] { assert Select(rows, q)[0] in Select(rows, q); }
  }

  /** The unique constraint on the key, across all triggers. */
  predicate Violates(rows: Table, req: Request) {
    req.key.Some? && exists r <- rows :: r.key == req.key
  }

  function NewRow(req: Request, now1: int, now2: int): Invocation {
    Invocation(req.trigger, req.key, req.hash, now1, now2 + DAY)
  }

  /** `record_invocation`; None is the IntegrityError of the unique constraint. */
  function Record(rows: Table, req: Request, now1: int, now2: int): Option<Table> {
    if Violates(rows, req) then None
    else Some(rows + [NewRow(req, now1, now2)])
  }

  function Kept(cutoff: int): Invocation -> bool {
    (r: Invocation) => r.expires >= cutoff
  }

  function Cleanup(rows: Table, hours: int, now: int): Table {
    if hours < 1 || hours > 8760 then rows   // the ValueError of an hours value out of range
    else Select(rows, Kept(now - hours * HOUR))
  }

  // ---------- Serial runs ----------

  datatype Operation =
    | Webhook(req: Request, times: seq<int>)   // the four clock readings, in order
    | CleanUp(hours: int, now: int)

  /** The table, and every invocation ever recorded. */
  datatype Repo = Repo(rows: Table, recorded: Table)

  /** A webhook call records only after its check found nothing. */
  function Step(s: Repo, op: Operation): Repo
    requires op.Webhook? ==> |op.times| == 4
  {
    match op
    case CleanUp(hours, now) => s.(rows := Cleanup(s.rows, hours, now))
    case Webhook(req, t) =>
      if Check(s.rows, req, t[0], t[1]) != NoRow then s
      else match Record(s.rows, req, t[2], t[3])
        case None => s
        case Some(rows) => Repo(rows, s.recorded + [NewRow(req, t[2], t[3])])
  }

  function First(op: Operation): int
    requires op.Webhook? ==> |op.times| == 4
  {
    if op.Webhook? then op.times[0] else op.now
  }

  function Last(op: Operation): int
    requires op.Webhook? ==> |op.times| == 4
  {
    if op.Webhook? then op.times[3] else op.now
  }

  /** Each operation ends before the next begins, and the clock never goes back. */
  ghost predicate Serial(ops: seq<Operation>) {
    && (forall op <- ops :: op.Webhook? ==> |op.times| == 4 && op.times[0] <= op.times[1] <= op.times[2] <= op.times[3])
    && (forall i, j | 0 <= i < j < |ops| :: Last(ops[i]) <= First(ops[j]))
  }

  ghost function Run(ops: seq<Operation>): Repo
    requires Serial(ops)
  {
    if ops == [] then Repo([], []) else Step(Run(ops[..|ops| - 1]), ops[|ops| - 1])
  }

  // ---------- The invariant ----------

  /** Same trigger, and the same key or the same payload. */
  predicate Duplicates(a: Invocation, b: Invocation) {
    a.trigger == b.trigger && (a.hash == b.hash || (a.key.Some? && a.key == b.key))
  }

  predicate Spaced(rows: Table) {
    forall i, j | 0 <= i < j < |rows| :: Duplicates(rows[i], rows[j]) ==> rows[i].created + DAY <= rows[j].created
  }

  predicate UniqueKeys(rows: Table) {
    forall i, j | 0 <= i < j < |rows| :: rows[i].key.Some? ==> rows[i].key != rows[j].key
  }

  ghost predicate Dated(rows: Table, now: int) {
    forall r <- rows :: r.created <= now && r.created + DAY <= r.expires
  }

  ghost predicate Consistent(s: Repo, now: int) {
    && Spaced(s.recorded) && Spaced(s.rows) && UniqueKeys(s.rows)
    && Dated(s.recorded, now)
    && (forall r <- s.rows :: r in s.recorded)
    && (forall r <- s.recorded :: r in s.rows || r.expires < now)
  }

  lemma {:induction false} SelectSpaced(rows: Table, p: Invocation -> bool)
    requires Spaced(rows) && UniqueKeys(rows)
    ensures Spaced(Select(rows, p)) && UniqueKeys(Select(rows, p))
  {
    if rows != [] {
      var init, last := rows[..|rows| - 1], rows[|rows| - 1];
      SelectSpaced(init, p);
      SelectExact(init, p);
      var kept := Select(init, p);
      forall i | 0 <= i < |kept|
        ensures Duplicates(kept[i], last) ==> kept[i].created + DAY <= last.created
        ensures kept[i].key.Some? ==> kept[i].key != last.key
      {
        assert kept[i] in kept;
        var k :| 0 <= k < |init| && init[k] == kept[i];
        assert rows[k] == kept[i];
      }
    }
  }

  lemma CleanUpKeeps(s: Repo, hours: int, last: int, now: int)
    requires last <= now
    ensures Consistent(s, last) ==> Consistent(s.(rows := Cleanup(s.rows, hours, now)), now)
  {
    if 1 <= hours <= 8760 && Consistent(s, last) {
      var p := Kept(now - hours * HOUR);
      SelectExact(s.rows, p);
      SelectSpaced(s.rows, p);
    }
  }

  /** A row that passed both the check and the constraint duplicates nothing recorded in
      the last day. */
  lemma RecordedIsNew(s: Repo, req: Request, last: int, now1: int, now2: int, now3: int, now4: int, r: Invocation)
    requires Consistent(s, last) && last <= now1 <= now2 <= now3
    requires Check(s.rows, req, now1, now2) == NoRow && !Violates(s.rows, req)
    requires r in s.recorded && Duplicates(r, NewRow(req, now3, now4))
    ensures r.created + DAY <= now3
  {
    if r in s.rows {
      SelectExact(s.rows, HashMatch(req, now2));
      assert r !in Select(s.rows, HashMatch(req, now2));
    }
  }

  lemma RecordKeeps(s: Repo, req: Request, last: int, now1: int, now2: int, now3: int, now4: int)
    requires last <= now1 <= now2 <= now3 <= now4
    requires Check(s.rows, req, now1, now2) == NoRow && !Violates(s.rows, req)
    ensures var row := NewRow(req, now3, now4);
      Consistent(s, last) ==> Consistent(Repo(s.rows + [row], s.recorded + [row]), now4)
  {
    var row := NewRow(req, now3, now4);
    if Consistent(s, last) {
      forall r <- s.recorded ensures Duplicates(r, row) ==> r.created + DAY <= row.created {
        if Duplicates(r, row) { RecordedIsNew(s, req, last, now1, now2, now3, now4, r); }
      }
    }
  }

  lemma Later(s: Repo, last: int, now: int)
    requires last <= now
    ensures Consistent(s, last) ==> Consistent(s, now)
  {
  }

  lemma WebhookKeeps(s: Repo, req: Request, t: seq<int>, last: int)
    requires |t| == 4 && last <= t[0] <= t[1] <= t[2] <= t[3]
    ensures Consistent(s, last) ==> Consistent(Step(s, Webhook(req, t)), t[3])
  {
    if Check(s.rows, req, t[0], t[1]) == NoRow && !Violates(s.rows, req) {
      RecordKeeps(s, req, last, t[0], t[1], t[2], t[3]);
    } else {
      Later(s, last, t[3]);
    }
  }

  lemma StepKeeps(s: Repo, op: Operation, last: int)
    requires (op.Webhook? ==> |op.times| == 4) && last <= First(op)
    requires op.Webhook? ==> op.times[0] <= op.times[1] <= op.times[2] <= op.times[3]
    ensures Consistent(s, last) ==> Consistent(Step(s, op), Last(op))
  {
    match op
    case CleanUp(hours, now) => CleanUpKeeps(s, hours, last, now);
    case Webhook(req, t) => WebhookKeeps(s, req, t, last);
  }

  lemma {:induction false} RunKeeps(ops: seq<Operation>, now: int)
    requires Serial(ops) && forall op <- ops :: Last(op) <= now
    ensures Consistent(Run(ops), now)
  {
    if ops != [] {
      var init, op := ops[..|ops| - 1], ops[|ops| - 1];
      EarlierOps(ops);
      RunKeeps(init, First(op));
      StepKeeps(Run(init), op, First(op));
    }
  }

  /** Any two recorded invocations of one trigger with the same key or the same payload
      are at least 24 hours apart, whatever was cleaned up in between. */
  lemma AtMostOncePerDay(ops: seq<Operation>, now: int, i: nat, j: nat)
    requires Serial(ops) && forall op <- ops :: Last(op) <= now
    requires i < j < |Run(ops).recorded|
    requires Duplicates(Run(ops).recorded[i], Run(ops).recorded[j])
    ensures Run(ops).recorded[i].created + DAY <= Run(ops).recorded[j].created
  {
    RunKeeps(ops, now);
  }

  /** Neither lookup of a later check ever finds two rows. */
  lemma NoLookupSeesTwo(ops: seq<Operation>, now: int, req: Request, now1: int, now2: int)
    requires Serial(ops) && (forall op <- ops :: Last(op) <= now) && now <= now1 <= now2
    ensures Check(Run(ops).rows, req, now1, now2) != MultipleResultsFound
  {
    RunKeeps(ops, now);
    var rows := Run(ops).rows;
    assert forall r <- rows :: r.created <= now;
    if HasKey(req) && |Select(rows, KeyMatch(req, now1))| >= 2 {
      var i, j := SelectTwo(rows, KeyMatch(req, now1));
    }
    if |Select(rows, HashMatch(req, now2))| >= 2 {
      var i, j := SelectTwo(rows, HashMatch(req, now2));
    }
  }

  // ---------- Cleanup ----------

  /** A cleanup changes the answer of no check made then or later. */
  lemma CleanupIsInvisible(rows: Table, hours: int, now: int, req: Request, now1: int, now2: int)
    requires (forall r <- rows :: r.created + DAY <= r.expires) && now <= now1 && now <= now2
    ensures Check(Cleanup(rows, hours, now), req, now1, now2) == Check(rows, req, now1, now2)
  {
    if 1 <= hours <= 8760 {
      var kept := Kept(now - hours * HOUR);
      SelectTwice(rows, KeyMatch(req, now1), kept);
      SelectTwice(rows, HashMatch(req, now2), kept);
    }
  }

  /** `at` lists the positions of the rows that pass, in order, and `left` is what stands
      there: so every row keeps its place, and none is lost, moved or repeated. */
  ghost predicate Picks(at: seq<nat>, rows: Table, left: Table, p: Invocation -> bool) {
    && |at| == |left| && (forall i, j | 0 <= i < j < |at| :: at[i] < at[j])
    && (forall i | 0 <= i < |at| :: at[i] < |rows| && left[i] == rows[at[i]])
    && forall k | 0 <= k < |rows| :: k in at <==> p(rows[k])
  }

  lemma PicksMore(at: seq<nat>, rows: Table, left: Table, p: Invocation -> bool, last: Invocation)
    requires Picks(at, rows, left, p)
    ensures Picks(at + if p(last) then [|rows|] else [], rows + [last], left + if p(last) then [last] else [], p)
  {
    var next := at + if p(last) then [|rows|] else [];
    forall k | 0 <= k < |rows + [last]| ensures k in next <==> p((rows + [last])[k]) {
      if k < |rows| {
        assert k in at <==> p(rows[k]);
        assert k in next <==> k in at;
      } else {
        assert k !in at && (k in next <==> p(last));
      }
    }
  }

  lemma {:induction false} SelectPicks(rows: Table, p: Invocation -> bool) returns (at: seq<nat>)
    ensures Picks(at, rows, Select(rows, p), p)
  {
    at := [];
    if rows != [] {
      var init, last := rows[..|rows| - 1], rows[|rows| - 1];
      at := SelectPicks(init, p);
      PicksMore(at, init, Select(init, p), p, last);
      at := at + if p(last) then [|init|] else [];
      assert init + [last] == rows;
    }
  }

  /** A cleanup with `hours` in range leaves exactly the rows that expired no longer than
      that ago, each in its place; one with `hours` out of range leaves them all. */
  lemma CleanupLeavesExactly(rows: Table, hours: int, now: int) returns (at: seq<nat>)
    ensures 1 <= hours <= 8760 ==>
      Picks(at, rows, Cleanup(rows, hours, now), (r: Invocation) => now - hours * HOUR <= r.expires)
    ensures !(1 <= hours <= 8760) ==> Cleanup(rows, hours, now) == rows
  {
    at := [];
    if 1 <= hours <= 8760 {
      at := SelectPicks(rows, Kept(now - hours * HOUR));
    }
  }

  /** The operation is a cleanup made more than its `hours` after the row expired. */
  predicate Removes(op: Operation, r: Invocation) {
    op.CleanUp? && 1 <= op.hours <= 8760 && r.expires + op.hours * HOUR < op.now
  }

  lemma StepRemoves(s: Repo, op: Operation, r: Invocation)
    requires op.Webhook? ==> |op.times| == 4
    ensures r in s.rows ==> (r in Step(s, op).rows <==> !Removes(op, r))
    ensures r !in s.rows && r in Step(s, op).rows ==>
      op.Webhook? && r == NewRow(op.req, op.times[2], op.times[3]) && r in Step(s, op).recorded
    ensures r in Step(s, op).recorded && r !in s.recorded ==> r in Step(s, op).rows
  {
    if op.CleanUp? && 1 <= op.hours <= 8760 { SelectExact(s.rows, Kept(op.now - op.hours * HOUR)); }
  }

  /** Over any run, a recorded row is in the table until a cleanup is made more than its
      `hours` after the row expired, and not after that. */
  lemma {:induction false} RowsStayUntilRemoved(ops: seq<Operation>, now: int, r: Invocation)
    requires Serial(ops) && (forall op <- ops :: Last(op) <= now) && r in Run(ops).recorded
    ensures r in Run(ops).rows <==> forall op <- ops :: !Removes(op, r)
  {
    var init, op := ops[..|ops| - 1], ops[|ops| - 1];
    EarlierOps(ops);
    RunKeeps(init, First(op));
    StepRemoves(Run(init), op, r);
    assert ops == init + [op];
    if r in Run(init).recorded {
      RowsStayUntilRemoved(init, First(op), r);
    } else {
      assert op.Webhook? && r == NewRow(op.req, op.times[2], op.times[3]);
      forall d <- init ensures !Removes(d, r) {
        assert Last(d) <= First(op);
      }
    }
  }

  /** So over any run a key is refused exactly while a row recorded with it has not been
      removed, by whatever trigger it was recorded and however long ago it expired. */
  lemma KeyRefusedUntilRemoved(ops: seq<Operation>, now: int, req: Request, now1: int, now2: int)
    requires Serial(ops) && forall op <- ops :: Last(op) <= now
    ensures Record(Run(ops).rows, req, now1, now2) == None <==>
      && req.key.Some?
      && exists r <- Run(ops).recorded :: r.key == req.key && forall op <- ops :: !Removes(op, r)
  {
    RunKeeps(ops, now);
    forall r <- Run(ops).recorded ensures r in Run(ops).rows <==> forall op <- ops :: !Removes(op, r) {
      RowsStayUntilRemoved(ops, now, r);
    }
  }

  function WithoutCleanups(ops: seq<Operation>): seq<Operation> {
    if ops == [] then []
    else
      var init, op := WithoutCleanups(ops[..|ops| - 1]), ops[|ops| - 1];
      if op.CleanUp? then init else init + [op]
  }

  lemma {:induction false} SerialWithoutCleanups(ops: seq<Operation>)
    requires Serial(ops)
    ensures Serial(WithoutCleanups(ops)) && forall op <- WithoutCleanups(ops) :: op in ops
  {
    if ops != [] {
      var init, op := ops[..|ops| - 1], ops[|ops| - 1];
      assert op in ops && forall d <- init :: d in ops;
      SerialWithoutCleanups(init);
      var rest := WithoutCleanups(init);
      forall i | 0 <= i < |rest| ensures Last(rest[i]) <= First(op) {
        assert rest[i] in init;
        var j :| 0 <= j < |init| && init[j] == rest[i];
        assert ops[j] == init[j];
      }
    }
  }

  lemma {:induction false} SelectAll(rows: Table, p: Invocation -> bool)
    requires forall r <- rows :: p(r)
    ensures Select(rows, p) == rows
  {
    if rows != [] {
      var init := rows[..|rows| - 1];
      assert rows == init + [rows[|rows| - 1]];
      SelectAll(init, p);
    }
  }

  lemma SelectKeptTwice(rows: Table, c: int, d: int)
    ensures Select(Select(rows, Kept(c)), Kept(d)) == Select(rows, Kept(if c < d then d else c))
  {
    if c < d {
      SelectTwice(rows, Kept(d), Kept(c));
    } else {
      SelectExact(rows, Kept(c));
      SelectAll(Select(rows, Kept(c)), Kept(d));
    }
  }

  lemma KeptAnswers(rows: Table, cutoff: int, req: Request, now1: int, now2: int)
    requires (forall r <- rows :: r.created + DAY <= r.expires) && cutoff <= now1 && cutoff <= now2
    ensures Check(Select(rows, Kept(cutoff)), req, now1, now2) == Check(rows, req, now1, now2)
    ensures Violates(Select(rows, Kept(cutoff)), req) ==> Violates(rows, req)
  {
    SelectTwice(rows, KeyMatch(req, now1), Kept(cutoff));
    SelectTwice(rows, HashMatch(req, now2), Kept(cutoff));
    SelectExact(rows, Kept(cutoff));
  }

  /** `less` is what one cutoff leaves of `all`. */
  ghost predicate Hides(less: Repo, all: Repo, cutoff: int) {
    less == Repo(Select(all.rows, Kept(cutoff)), all.recorded)
  }

  lemma CleanUpHides(less: Repo, all: Repo, before: int, hours: int, now: int) returns (cutoff: int)
    requires before <= now
    ensures cutoff <= now
    ensures Hides(less, all, before) ==> Hides(Step(less, CleanUp(hours, now)), all, cutoff)
  {
    cutoff := before;
    if 1 <= hours <= 8760 {
      var d := now - hours * HOUR;
      cutoff := if before < d then d else before;
      SelectKeptTwice(all.rows, before, d);
    }
  }

  /** The call uses a key that was recorded before and has been cleaned up since. */
  predicate ReusesCleaned(s: Repo, op: Operation)
    requires op.Webhook? ==> |op.times| == 4
  {
    && op.Webhook? && Check(s.rows, op.req, op.times[0], op.times[1]) == NoRow
    && Violates(s.recorded, op.req) && !Violates(s.rows, op.req)
  }

  ghost predicate NeverReusesCleaned(ops: seq<Operation>)
    requires Serial(ops)
  {
    ops != [] ==>
      var init, op := ops[..|ops| - 1], ops[|ops| - 1];
      NeverReusesCleaned(init) && !ReusesCleaned(Run(init), op)
  }

  lemma RowStays(rows: Table, row: Invocation, cutoff: int)
    ensures row.expires >= cutoff ==> Select(rows + [row], Kept(cutoff)) == Select(rows, Kept(cutoff)) + [row]
  {
    assert (rows + [row])[..|rows|] == rows;
  }

  /** A call that both tables answer, and let in or refuse, alike. */
  lemma StepHides(less: Repo, all: Repo, cutoff: int, req: Request, t: seq<int>)
    requires |t| == 4 && Hides(less, all, cutoff) && cutoff <= t[3] + DAY
    requires Check(less.rows, req, t[0], t[1]) == Check(all.rows, req, t[0], t[1])
    requires Check(less.rows, req, t[0], t[1]) == NoRow ==> (Violates(less.rows, req) <==> Violates(all.rows, req))
    ensures Hides(Step(less, Webhook(req, t)), Step(all, Webhook(req, t)), cutoff)
  {
    RowStays(all.rows, NewRow(req, t[2], t[3]), cutoff);
  }

  lemma WebhookHides(less: Repo, all: Repo, cutoff: int, req: Request, t: seq<int>)
    requires |t| == 4 && cutoff <= t[0] <= t[1] <= t[2] <= t[3] && Hides(less, all, cutoff)
    requires all.rows == all.recorded && forall r <- all.rows :: r.created + DAY <= r.expires
    requires !ReusesCleaned(less, Webhook(req, t))
    ensures Hides(Step(less, Webhook(req, t)), Step(all, Webhook(req, t)), cutoff)
  {
    KeptAnswers(all.rows, cutoff, req, t[0], t[1]);
    StepHides(less, all, cutoff, req, t);
  }

  lemma EarlierOps(ops: seq<Operation>)
    requires Serial(ops) && ops != []
    ensures var init, op := ops[..|ops| - 1], ops[|ops| - 1];
      Serial(init) && op in ops && forall d <- init :: Last(d) <= First(op) && d in ops
  {
    var init, op := ops[..|ops| - 1], ops[|ops| - 1];
    forall d <- init ensures Last(d) <= First(op) && d in ops {
      var i :| 0 <= i < |init| && init[i] == d;
      assert ops[i] == d;
    }
  }

  /** Without cleanups the table holds all that was recorded. */
  lemma {:induction false} NothingCleaned(ops: seq<Operation>)
    requires Serial(ops) && forall op <- ops :: op.Webhook?
    ensures Run(ops).rows == Run(ops).recorded
  {
    if ops != [] {
      EarlierOps(ops);
      NothingCleaned(ops[..|ops| - 1]);
    }
  }

  lemma {:induction false} CallsOnly(ops: seq<Operation>)
    ensures forall op <- WithoutCleanups(ops) :: op.Webhook?
  {
    if ops != [] { CallsOnly(ops[..|ops| - 1]); }
  }

  lemma RunMore(rest: seq<Operation>, op: Operation)
    requires Serial(rest) && Serial(rest + [op])
    ensures Run(rest + [op]) == Step(Run(rest), op)
  {
    assert (rest + [op])[..|rest|] == rest;
  }

  /** Adding one call to a run without cleanups. */
  lemma CallHides(less: Repo, rest: seq<Operation>, op: Operation, cutoff: int)
    requires op.Webhook? && Serial(rest + [op]) && Serial(rest) && cutoff <= First(op)
    requires forall d <- rest :: d.Webhook?
    ensures Hides(less, Run(rest), cutoff) && !ReusesCleaned(less, op) ==>
      Hides(Step(less, op), Run(rest + [op]), cutoff)
  {
    var more := rest + [op];
    assert more[..|rest|] == rest && op in more;
    EarlierOps(more);
    RunKeeps(rest, First(op));
    NothingCleaned(rest);
    RunMore(rest, op);
    if Hides(less, Run(rest), cutoff) && !ReusesCleaned(less, op) {
      WebhookHides(less, Run(rest), cutoff, op.req, op.times);
    }
  }

  /** The table of a run is what one cutoff leaves of the table of the same run without its
      cleanups, as long as no call uses a cleaned key again. */
  lemma {:induction false} CleanupsAreOneCutoff(ops: seq<Operation>, now: int) returns (cutoff: int)
    requires Serial(ops) && forall op <- ops :: Last(op) <= now
    ensures cutoff <= now && Serial(WithoutCleanups(ops))
    ensures NeverReusesCleaned(ops) ==> Hides(Run(ops), Run(WithoutCleanups(ops)), cutoff)
  {
    cutoff := now;
    SerialWithoutCleanups(ops);
    if ops != [] {
      var init, op := ops[..|ops| - 1], ops[|ops| - 1];
      EarlierOps(ops);
      cutoff := CleanupsAreOneCutoff(init, First(op));
      if op.CleanUp? {
        cutoff := CleanUpHides(Run(init), Run(WithoutCleanups(init)), cutoff, op.hours, op.now);
      } else {
        CallsOnly(init);
        CallHides(Run(init), WithoutCleanups(init), op, cutoff);
      }
    }
  }

  lemma RecordedGrows(s: Repo, op: Operation)
    requires op.Webhook? ==> |op.times| == 4
    ensures s.recorded <= Step(s, op).recorded
  {
  }

  lemma ReuseRepeatsAKey(s: Repo, op: Operation)
    requires op.Webhook? ==> |op.times| == 4
    requires ReusesCleaned(s, op)
    ensures !UniqueKeys(Step(s, op).recorded)
  {
    var i :| 0 <= i < |s.recorded| && s.recorded[i].key == op.req.key;
    var after := Step(s, op).recorded;
    assert after[i].key == op.req.key == after[|s.recorded|].key;
  }

  lemma {:induction false} ReuseShows(ops: seq<Operation>)
    requires Serial(ops) && UniqueKeys(Run(ops).recorded)
    ensures NeverReusesCleaned(ops)
  {
    if ops != [] {
      var init, op := ops[..|ops| - 1], ops[|ops| - 1];
      EarlierOps(ops);
      RecordedGrows(Run(init), op);
      var before, after := Run(init).recorded, Run(ops).recorded;
      assert forall i | 0 <= i < |before| :: before[i] == after[i];
      ReuseShows(init);
      if ReusesCleaned(Run(init), op) { ReuseRepeatsAKey(Run(init), op); }
    }
  }

  /** Over any serial run, cleanups change nothing that is recorded exactly when no call
      uses a key that was cleaned up; that is, when no key is recorded twice. */
  lemma CleanupsChangeNothingRecorded(ops: seq<Operation>, now: int)
    requires Serial(ops) && forall op <- ops :: Last(op) <= now
    ensures Serial(WithoutCleanups(ops))
    ensures Run(ops).recorded == Run(WithoutCleanups(ops)).recorded <==> NeverReusesCleaned(ops)
    ensures NeverReusesCleaned(ops) <==> UniqueKeys(Run(ops).recorded)
  {
    var rest := WithoutCleanups(ops);
    var cutoff := CleanupsAreOneCutoff(ops, now);
    SerialWithoutCleanups(ops);
    CallsOnly(ops);
    NothingCleaned(rest);
    RunKeeps(rest, now);
    if UniqueKeys(Run(ops).recorded) { ReuseShows(ops); }
  }

  /** After the run, every check made then or later has the answer it would have without the
      cleanups. */
  ghost predicate AnswersAlike(ops: seq<Operation>)
    requires Serial(ops) && Serial(WithoutCleanups(ops))
  {
    forall req, now1, now2 | (forall op <- ops :: Last(op) <= now1) && now1 <= now2 ::
      Check(Run(ops).rows, req, now1, now2) == Check(Run(WithoutCleanups(ops)).rows, req, now1, now2)
  }

  /** And so it was all along. */
  ghost predicate AlwaysAlike(ops: seq<Operation>)
    requires Serial(ops)
  {
    SerialWithoutCleanups(ops);
    AnswersAlike(ops) && (ops != [] ==> AlwaysAlike(ops[..|ops| - 1]))
  }

  lemma HiddenAnswersAlike(ops: seq<Operation>)
    requires Serial(ops) && Serial(WithoutCleanups(ops)) && NeverReusesCleaned(ops)
    ensures AnswersAlike(ops)
  {
    var rest := WithoutCleanups(ops);
    SerialWithoutCleanups(ops);
    forall req, now1, now2 | (forall op <- ops :: Last(op) <= now1) && now1 <= now2
      ensures Check(Run(ops).rows, req, now1, now2) == Check(Run(rest).rows, req, now1, now2)
    {
      var cutoff := CleanupsAreOneCutoff(ops, now1);
      RunKeeps(rest, now1);
      KeptAnswers(Run(rest).rows, cutoff, req, now1, now2);
    }
  }

  /** A check that found nothing finds nothing later in the same table. */
  lemma NothingLater(rows: Table, req: Request, now1: int, now2: int, now3: int, now4: int)
    requires now1 <= now3 && now2 <= now4 && Check(rows, req, now1, now2) == NoRow
    ensures Check(rows, req, now3, now4) == NoRow
  {
    CheckFindsExactly(rows, req, now1, now2);
    CheckFindsExactly(rows, req, now3, now4);
    forall row <- rows ensures !FoundByKey(row, req, now3) && !FoundByHash(row, req, now4) {
      assert !FoundByKey(row, req, now1) && !FoundByHash(row, req, now2);
    }
  }

  /** A call that uses a cleaned key is found by the next check, and would not be. */
  lemma ReuseIsSeen(less: Repo, all: Repo, cutoff: int, op: Operation)
    requires op.Webhook? && |op.times| == 4 && cutoff <= op.times[0] <= op.times[1] <= op.times[2] <= op.times[3]
    requires HasKey(op.req) || op.times[3] < op.times[2] + DAY
    requires Hides(less, all, cutoff) && all.rows == all.recorded && ReusesCleaned(less, op)
    requires forall r <- all.rows :: r.created + DAY <= r.expires
    ensures var t := op.times[3];
      Check(Step(less, op).rows, op.req, t, t) != NoRow == Check(Step(all, op).rows, op.req, t, t)
  {
    var req, t := op.req, op.times[3];
    KeptAnswers(all.rows, cutoff, req, op.times[0], op.times[1]);
    NothingLater(all.rows, req, op.times[0], op.times[1], t, t);
    var row := NewRow(req, op.times[2], t);
    var rows := Step(less, op).rows;
    assert row in rows && (FoundByHash(row, req, t) || FoundByKey(row, req, t));
    CheckFindsExactly(rows, req, t, t);
  }

  /** No call without a key to look up takes a day to make its row. */
  predicate Prompt(op: Operation)
    requires op.Webhook? ==> |op.times| == 4
  {
    op.Webhook? ==> HasKey(op.req) || op.times[3] < op.times[2] + DAY
  }

  lemma ReuseIsSeenByCheck(init: seq<Operation>, op: Operation)
    requires Serial(init) && Serial(init + [op]) && op.Webhook? && Prompt(op)
    requires Serial(WithoutCleanups(init)) && NeverReusesCleaned(init) && ReusesCleaned(Run(init), op)
    ensures var t := op.times[3];
      Check(Step(Run(init), op).rows, op.req, t, t)
      != NoRow == Check(Step(Run(WithoutCleanups(init)), op).rows, op.req, t, t)
  {
    var rest, more := WithoutCleanups(init), init + [op];
    assert more[..|init|] == init && op in more;
    EarlierOps(more);
    var cutoff := CleanupsAreOneCutoff(init, First(op));
    SerialWithoutCleanups(init);
    CallsOnly(init);
    NothingCleaned(rest);
    RunKeeps(rest, First(op));
    ReuseIsSeen(Run(init), Run(rest), cutoff, op);
  }

  /** The runs with and without cleanups after one more call. */
  lemma CallAfterBoth(ops: seq<Operation>)
    requires Serial(ops) && ops != [] && ops[|ops| - 1].Webhook?
    ensures var init, op := ops[..|ops| - 1], ops[|ops| - 1];
      && Serial(init) && Serial(WithoutCleanups(init)) && Serial(WithoutCleanups(ops)) && init + [op] == ops
      && Run(ops) == Step(Run(init), op)
      && Run(WithoutCleanups(ops)) == Step(Run(WithoutCleanups(init)), op)
      && forall d <- ops :: Last(d) <= op.times[3]
  {
    var init, op := ops[..|ops| - 1], ops[|ops| - 1];
    EarlierOps(ops);
    assert init + [op] == ops;
    SerialWithoutCleanups(ops);
    SerialWithoutCleanups(init);
    RunMore(WithoutCleanups(init), op);
    LastIsLatest(ops);
  }

  lemma LastIsLatest(ops: seq<Operation>)
    requires Serial(ops) && ops != []
    ensures forall d <- ops :: Last(d) <= Last(ops[|ops| - 1])
  {
    var op := ops[|ops| - 1];
    EarlierOps(ops);
    forall d <- ops ensures Last(d) <= Last(op) {
      if d != op { assert d in ops[..|ops| - 1]; }
    }
  }

  lemma AlikeIsNoReuse(ops: seq<Operation>)
    requires Serial(ops) && ops != [] && Serial(WithoutCleanups(ops)) && AnswersAlike(ops)
    requires Serial(ops[..|ops| - 1]) && NeverReusesCleaned(ops[..|ops| - 1]) && Prompt(ops[|ops| - 1])
    ensures !ReusesCleaned(Run(ops[..|ops| - 1]), ops[|ops| - 1])
  {
    var init, op := ops[..|ops| - 1], ops[|ops| - 1];
    if op.Webhook? && ReusesCleaned(Run(init), op) {
      CallAfterBoth(ops);
      var t := op.times[3];
      assert Check(Run(ops).rows, op.req, t, t) == Check(Run(WithoutCleanups(ops)).rows, op.req, t, t);
      ReuseIsSeenByCheck(init, op);
    }
  }

  /** So cleanups never change an answer exactly when no call uses a key that was cleaned
      up. */
  lemma {:induction false} CleanupsAreInvisible(ops: seq<Operation>)
    requires Serial(ops)
    ensures NeverReusesCleaned(ops) ==> AlwaysAlike(ops)
    ensures (forall op <- ops :: Prompt(op)) ==> (AlwaysAlike(ops) <==> NeverReusesCleaned(ops))
  {
    SerialWithoutCleanups(ops);
    if NeverReusesCleaned(ops) { HiddenAnswersAlike(ops); }
    if ops != [] {
      EarlierOps(ops);
      CleanupsAreInvisible(ops[..|ops| - 1]);
      if AlwaysAlike(ops) && forall op <- ops :: Prompt(op) { AlikeIsNoReuse(ops); }
    }
  }

  /** The second webhook call may use the first one's key: it is not empty, the trigger is
      the same, and the first one's day is not over. */
  predicate MayReuse(first: Operation, second: Operation)
    requires first.Webhook? ==> |first.times| == 4
    requires second.Webhook? ==> |second.times| == 4
  {
    first.Webhook? && second.Webhook? && first.req.key.Some? && first.req.key == second.req.key ==>
      HasKey(second.req) && first.req.trigger == second.req.trigger && second.times[0] < first.times[3] + DAY
  }

  /** No key is used by two triggers, or again after its day. */
  ghost predicate KeysReusedInTime(ops: seq<Operation>)
    requires Serial(ops)
  {
    ops != [] ==>
      var init, op := ops[..|ops| - 1], ops[|ops| - 1];
      KeysReusedInTime(init) && forall d <- init :: MayReuse(d, op)
  }

  lemma {:induction false} RecordedComesFromCalls(ops: seq<Operation>, r: Invocation)
    requires Serial(ops) && r in Run(ops).recorded
    ensures exists op <- ops :: op.Webhook? && r == NewRow(op.req, op.times[2], op.times[3])
  {
    var init, op := ops[..|ops| - 1], ops[|ops| - 1];
    EarlierOps(ops);
    if r in Run(init).recorded { RecordedComesFromCalls(init, r); }
  }

  /** Then no call that passed its check uses a key recorded before, cleaned up or not. */
  lemma ReusedInTimeIsFound(init: seq<Operation>, op: Operation)
    requires Serial(init + [op]) && op.Webhook? && Serial(init) && forall d <- init :: MayReuse(d, op)
    requires Check(Run(init).rows, op.req, op.times[0], op.times[1]) == NoRow
    ensures !Violates(Run(init).recorded, op.req) && !Violates(Run(init).rows, op.req)
  {
    var s, more := Run(init), init + [op];
    assert more[..|init|] == init;
    EarlierOps(more);
    RunKeeps(init, First(op));
    if Violates(s.recorded, op.req) {
      var r :| r in s.recorded && r.key == op.req.key;
      RecordedComesFromCalls(init, r);
      var d :| d in init && d.Webhook? && r == NewRow(d.req, d.times[2], d.times[3]);
      CheckFindsExactly(s.rows, op.req, op.times[0], op.times[1]);
      assert MayReuse(d, op) && FoundByKey(r, op.req, op.times[0]);
      assert false;
    }
  }

  /** The unique constraint never refuses a webhook call of the run. */
  ghost predicate NeverRefused(ops: seq<Operation>)
    requires Serial(ops)
  {
    ops != [] ==>
      var init, op := ops[..|ops| - 1], ops[|ops| - 1];
      && NeverRefused(init)
      && (op.Webhook? && Check(Run(init).rows, op.req, op.times[0], op.times[1]) == NoRow ==>
            !Violates(Run(init).rows, op.req))
  }

  lemma {:induction false} KeysReusedInTimeNeverRefused(ops: seq<Operation>)
    requires Serial(ops) && KeysReusedInTime(ops)
    ensures NeverRefused(ops) && NeverReusesCleaned(ops)
  {
    if ops != [] {
      var init, op := ops[..|ops| - 1], ops[|ops| - 1];
      EarlierOps(ops);
      KeysReusedInTimeNeverRefused(init);
      if op.Webhook? && Check(Run(init).rows, op.req, op.times[0], op.times[1]) == NoRow {
        assert init + [op] == ops;
        ReusedInTimeIsFound(init, op);
      }
    }
  }

  /** So cleanups change nothing as long as no key is used by two triggers, or again after
      its day. */
  lemma CleanupsAreInvisibleToFreshKeys(ops: seq<Operation>, now: int)
    requires Serial(ops) && (forall op <- ops :: Last(op) <= now) && KeysReusedInTime(ops)
    ensures Serial(WithoutCleanups(ops))
    ensures AlwaysAlike(ops) && Run(ops).recorded == Run(WithoutCleanups(ops)).recorded
  {
    KeysReusedInTimeNeverRefused(ops);
    CleanupsAreInvisible(ops);
    CleanupsChangeNothingRecorded(ops, now);
  }

  lemma SelectOne(row: Invocation, p: Invocation -> bool)
    ensures Select([row], p) == if p(row) then [row] else []
  {
    assert [row][..0] == [];
  }

  /** Where one does they may: a cleanup lets a key be recorded again whose expired row would
      have refused it, and a later check then finds that row. */
  lemma CleanupUnblocksAKey(trigger: string, key: string, first: string, second: string, now: int)
    requires key != "" && first != second && DAY + HOUR < now
    ensures var rows, req := [Invocation(trigger, Some(key), first, 0, DAY)], Request(trigger, Some(key), second);
      && Check(rows, req, now, now) == NoRow == Check(Cleanup(rows, 1, now), req, now, now)
      && Record(rows, req, now, now).None?
      && Record(Cleanup(rows, 1, now), req, now, now) == Some([NewRow(req, now, now)])
      && Check([NewRow(req, now, now)], req, now, now) == OneRow(NewRow(req, now, now))
  {
    var stale, req := Invocation(trigger, Some(key), first, 0, DAY), Request(trigger, Some(key), second);
    var row := NewRow(req, now, now);
    SelectOne(stale, Kept(now - 1 * HOUR));
    SelectOne(stale, KeyMatch(req, now));
    SelectOne(stale, HashMatch(req, now));
    SelectOne(row, KeyMatch(req, now));
    assert [] + [row] == [row] && Select([], KeyMatch(req, now)) == Select([], HashMatch(req, now)) == [];
  }

  // ---------- Where the check and the table disagree ----------

  /** A request that passed the check cannot be recorded exactly when some row still in the
      table holds its key: any row if the key is empty, which is not looked up, else a row of
      another trigger or an expired one that no cleanup has removed. */
  lemma PassedButRefused(rows: Table, req: Request, now1: int, now2: int, now3: int, now4: int)
    requires Check(rows, req, now1, now2) == NoRow
    ensures Record(rows, req, now3, now4) == None <==>
      && req.key.Some?
      && exists r <- rows ::
           r.key == req.key && (req.key.value == "" || r.trigger != req.trigger || r.expires <= now1)
  {
    CheckFindsExactly(rows, req, now1, now2);
  }

  /** Two requests with one payload and no key that both check before either records: the
      next check of that payload within the day raises. */
  lemma InterleavedRequestsBreakTheLookup(trigger: string, hash: string, t1: int, t2: int, now1: int, now2: int)
    requires t1 <= t2 <= now1 <= now2 < t1 + DAY
    ensures var req := Request(trigger, None, hash);
      && Check([], req, t1, t1) == NoRow == Check([], req, t2, t2)
      && Record([], req, t1, t1).Some? && Record(Record([], req, t1, t1).value, req, t2, t2).Some?
      && Check(Record(Record([], req, t1, t1).value, req, t2, t2).value, req, now1, now2) == MultipleResultsFound
  {
    var req := Request(trigger, None, hash);
    var one := [Invocation(trigger, None, hash, t1, t1 + DAY)];
    var two := one + [Invocation(trigger, None, hash, t2, t2 + DAY)];
    assert Record(one, req, t2, t2).value == two && two[..1] == one;
    assert one[..0] == [] && Select(one, HashMatch(req, now2)) == one;
    assert Select(two, HashMatch(req, now2)) == two;
  }

  // ---------- Requests in any interleaving ----------

  /** What interleaved requests do to the table: checks do not change it, and a record may
      come long after the check that let it through. */
  datatype Event = Insert(req: Request, now1: int, now2: int) | Purge(hours: int, now: int)
  {
    function End(): int { if Insert? then now2 else now }
  }

  function After(rows: Table, e: Event): Table {
    match e
    case Purge(hours, now) => Cleanup(rows, hours, now)
    case Insert(req, now1, now2) =>
      match Record(rows, req, now1, now2)
      case None => rows
      case Some(more) => more
  }

  function Events(events: seq<Event>): Table {
    if events == [] then [] else After(Events(events[..|events| - 1]), events[|events| - 1])
  }

  /** Events end in order, and the clock never goes back within one. */
  ghost predicate InOrder(events: seq<Event>) {
    && (forall e <- events :: e.Insert? ==> e.now1 <= e.now2)
    && forall i, j | 0 <= i < j < |events| :: events[i].End() <= events[j].End()
  }

  function WithoutKey(req: Request): Request {
    req.(key := None)
  }

  /** The record goes in although the lookup by payload would find a row by now. */
  predicate Stale(rows: Table, e: Event) {
    e.Insert? && !Violates(rows, e.req) && e.now2 < e.now1 + DAY
    && Check(rows, WithoutKey(e.req), e.now2, e.now2) != NoRow
  }

  predicate NeverStale(events: seq<Event>) {
    events != [] ==>
      NeverStale(events[..|events| - 1]) && !Stale(Events(events[..|events| - 1]), events[|events| - 1])
  }

  ghost predicate RaisesNone(events: seq<Event>) {
    forall req, now1, now2 | (forall e <- events :: e.End() <= now1) && now1 <= now2 ::
      Check(Events(events), req, now1, now2) != MultipleResultsFound
  }

  /** No check raises after the events, nor did any after some of them. */
  ghost predicate NeverRaises(events: seq<Event>) {
    RaisesNone(events) && (events != [] ==> NeverRaises(events[..|events| - 1]))
  }

  predicate OneInADay(rows: Table, now: int) {
    forall i, j | 0 <= i < j < |rows| && rows[i].trigger == rows[j].trigger && rows[i].hash == rows[j].hash ::
      rows[i].created + DAY <= now || rows[j].created + DAY <= now
  }

  lemma {:induction false} SelectKeepsPairs(rows: Table, p: Invocation -> bool, now: int)
    requires OneInADay(rows, now) && UniqueKeys(rows)
    ensures OneInADay(Select(rows, p), now) && UniqueKeys(Select(rows, p))
  {
    if rows != [] {
      var init, last := rows[..|rows| - 1], rows[|rows| - 1];
      SelectKeepsPairs(init, p, now);
      SelectExact(init, p);
      var kept := Select(init, p);
      forall i | 0 <= i < |kept|
        ensures kept[i].trigger == last.trigger && kept[i].hash == last.hash ==>
          kept[i].created + DAY <= now || last.created + DAY <= now
        ensures kept[i].key.Some? ==> kept[i].key != last.key
      {
        assert kept[i] in kept;
        var k :| 0 <= k < |init| && init[k] == kept[i];
        assert rows[k] == kept[i];
      }
    }
  }

  lemma InsertKeepsPairs(rows: Table, e: Event, now: int)
    requires e.Insert? && OneInADay(rows, now) && UniqueKeys(rows) && now <= e.now2
    requires !Stale(rows, e)
    ensures OneInADay(After(rows, e), e.now2) && UniqueKeys(After(rows, e))
  {
    if !Violates(rows, e.req) {
      CheckFindsExactly(rows, WithoutKey(e.req), e.now2, e.now2);
      forall i | 0 <= i < |rows|
        ensures rows[i].trigger == e.req.trigger && rows[i].hash == e.req.hash ==>
          rows[i].created + DAY <= e.now2 || e.now1 + DAY <= e.now2
        ensures e.req.key.Some? ==> rows[i].key != e.req.key
      {
        assert rows[i] in rows;
      }
    }
  }

  lemma EventKeepsPairs(rows: Table, e: Event, now: int)
    requires OneInADay(rows, e.End()) && UniqueKeys(rows) && !Stale(rows, e) && e.End() <= now
    ensures OneInADay(After(rows, e), now) && UniqueKeys(After(rows, e))
  {
    match e
    case Insert(_, _, _) => InsertKeepsPairs(rows, e, e.End());
    case Purge(hours, at) => SelectKeepsPairs(rows, Kept(at - hours * HOUR), at);
  }

  lemma EarlierEvents(events: seq<Event>)
    requires InOrder(events) && events != []
    ensures var init, e := events[..|events| - 1], events[|events| - 1];
      InOrder(init) && e in events && forall d <- init :: d in events && d.End() <= e.End()
  {
    var init, e := events[..|events| - 1], events[|events| - 1];
    forall d <- init ensures d in events && d.End() <= e.End() {
      var i :| 0 <= i < |init| && init[i] == d;
      assert events[i] == d;
    }
  }

  lemma {:induction false} PairsKept(events: seq<Event>, now: int)
    requires InOrder(events) && NeverStale(events) && forall e <- events :: e.End() <= now
    ensures OneInADay(Events(events), now) && UniqueKeys(Events(events))
  {
    if events != [] {
      var init, e := events[..|events| - 1], events[|events| - 1];
      EarlierEvents(events);
      PairsKept(init, e.End());
      EventKeepsPairs(Events(init), e, now);
    }
  }

  lemma PairsRaiseNone(rows: Table, req: Request, now1: int, now2: int)
    requires OneInADay(rows, now2) && UniqueKeys(rows)
    ensures Check(rows, req, now1, now2) != MultipleResultsFound
  {
    if HasKey(req) && |Select(rows, KeyMatch(req, now1))| >= 2 {
      var i, j := SelectTwo(rows, KeyMatch(req, now1));
    }
    if |Select(rows, HashMatch(req, now2))| >= 2 {
      var i, j := SelectTwo(rows, HashMatch(req, now2));
    }
  }

  /** The check that finds both the row of a stale record and the one before it. */
  lemma StaleRaises(rows: Table, e: Event)
    requires Stale(rows, e) && e.now1 <= e.now2
    ensures Check(After(rows, e), WithoutKey(e.req), e.now2, e.now2) == MultipleResultsFound
  {
    var req, row := WithoutKey(e.req), NewRow(e.req, e.now1, e.now2);
    assert (rows + [row])[..|rows|] == rows;
    assert Select(rows + [row], HashMatch(req, e.now2)) == Select(rows, HashMatch(req, e.now2)) + [row];
  }

  /** Over any events, however requests interleave: no check ever raises exactly when no
      record is stale. */
  lemma {:induction false} LookupsRaiseExactly(events: seq<Event>)
    requires InOrder(events)
    ensures NeverRaises(events) <==> NeverStale(events)
  {
    if events != [] {
      var init, e := events[..|events| - 1], events[|events| - 1];
      assert e in events && forall d <- init :: d in events;
      LookupsRaiseExactly(init);
      forall d <- events ensures d.End() <= e.End() {
        var i :| 0 <= i < |events| && events[i] == d;
      }
      if Stale(Events(init), e) {
        StaleRaises(Events(init), e);
        assert Check(Events(events), WithoutKey(e.req), e.now2, e.now2) == MultipleResultsFound;
      }
    }
    if NeverStale(events) {
      forall req, now1, now2 | (forall e <- events :: e.End() <= now1) && now1 <= now2
        ensures Check(Events(events), req, now1, now2) != MultipleResultsFound
      {
        PairsKept(events, now2);
        PairsRaiseNone(Events(events), req, now1, now2);
      }
    }
  }

  // ---------- The repository on mutable state ----------

  class TriggerRepository {
    var invocations: Table

    constructor ()
      ensures invocations == []
    {
      invocations := [];
    }

    method CheckIdempotency(req: Request, now1: int, now2: int) returns (r: Scalar)
      ensures r == Check(invocations, req, now1, now2)
    {
      if HasKey(req) {
        var existing := ScalarOneOrNone(Select(invocations, KeyMatch(req, now1)));
        if existing != NoRow {
          return existing;
        }
      }
      return ScalarOneOrNone(Select(invocations, HashMatch(req, now2)));
    }

    method RecordInvocation(req: Request, now1: int, now2: int) returns (integrityError: bool)
      modifies this
      ensures integrityError <==> Record(old(invocations), req, now1, now2) == None
      ensures invocations == if integrityError then old(invocations)
        else Record(old(invocations), req, now1, now2).value
      ensures integrityError <==> req.key.Some? && exists r <- old(invocations) :: r.key == req.key
      ensures !integrityError ==>
        invocations == old(invocations) + [Invocation(req.trigger, req.key, req.hash, now1, now2 + 24 * HOUR)]
    {
      if Violates(invocations, req) {
        return true;
      }
      invocations := invocations + [NewRow(req, now1, now2)];
      return false;
    }

    method CleanupOldInvocations(hours: int, now: int) returns (deleted: Option<nat>)
      modifies this
      ensures invocations == Cleanup(old(invocations), hours, now)
      ensures deleted == if 1 <= hours <= 8760 then Some(|old(invocations)| - |invocations|) else None
      ensures 1 <= hours <= 8760 ==> forall r ::
        r in invocations <==> r in old(invocations) && now - hours * HOUR <= r.expires
      ensures !(1 <= hours <= 8760) ==> invocations == old(invocations)
    {
      if hours < 1 || hours > 8760 {
        return None;
      }
      var before := |invocations|;
      invocations := Cleanup(invocations, hours, now);
      SelectShorter(old(invocations), Kept(now - hours * HOUR));
      SelectExact(old(invocations), Kept(now - hours * HOUR));
      return Some(before - |invocations|);
    }

    /** A webhook call as the trigger service makes it: check, then record. */
    method Handle(req: Request, times: seq<int>, ghost recorded: Table) returns (result: Scalar, ghost recorded': Table)
      requires |times| == 4
      modifies this
      ensures result == Check(old(invocations), req, times[0], times[1])
      ensures Repo(invocations, recorded') == Step(Repo(old(invocations), recorded), Webhook(req, times))
      ensures var row := Invocation(req.trigger, req.key, req.hash, times[2], times[3] + 24 * HOUR);
        if result == NoRow && !(req.key.Some? && exists r <- old(invocations) :: r.key == req.key) then
          invocations == old(invocations) + [row] && recorded' == recorded + [row]
        else
          invocations == old(invocations) && recorded' == recorded
    {
      recorded' := recorded;
      result := CheckIdempotency(req, times[0], times[1]);
      if result == NoRow {
        var failed := RecordInvocation(req, times[2], times[3]);
        if !failed {
          recorded' := recorded + [NewRow(req, times[2], times[3])];
        }
      }
    }
  }

  lemma {:induction false} SelectShorter(rows: Table, p: Invocation -> bool)
    ensures |Select(rows, p)| <= |rows|
  {
    if rows != [] { SelectShorter(rows[..|rows| - 1], p); }
  }
}
