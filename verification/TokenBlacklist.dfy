/** The in-memory token blacklist and the default time to live of an entry.

    `RevocationLasts` shows that a token blacklisted with the default time to live is
    reported at every time up to one second before its `exp` (section 4.1.4 of RFC 7519),
    whatever is done to the blacklist meanwhile, short of removing the token or giving it a
    time to live by hand. `ReportedExactlyUntil` says when a report ends, and
    `OneSecondIsLost` that the second cannot be saved. */
module TokenBlacklist {
  import opened Options

  // Times are microseconds; claims and times to live are seconds.
  const SECOND := 1_000_000
  const LEAST_TTL := 60
  const DEFAULT_TTL := 86400

  /** Every token with a good signature and an `exp` claim, with the claim. */
  type Claims = map<string, int>

  type Entries = map<string, int>

  /** `int(x / SECOND)`: truncation towards zero. */
  function Truncate(x: int): int {
    if x >= 0 then x / SECOND else -((-x) / SECOND)
  }

  /** The `exp` a token decodes to: an expired token does not decode. */
  function Decode(claims: Claims, token: string, now: int): Option<int> {
    if token in claims && now < claims[token] * SECOND then Some(claims[token]) else None
  }

  /** The default time to live, from the clock readings at decoding and after it. */
  function DefaultTtl(claims: Claims, token: string, decodedAt: int, now: int): int {
    match Decode(claims, token, decodedAt)
    case Some(exp) => var left := Truncate(exp * SECOND - now); if left < LEAST_TTL then LEAST_TTL else left
    case None => DEFAULT_TTL
  }

  /** Each operation with the clock readings it makes. */
  datatype Op =
    | Blacklist(token: string, decodedAt: int, now: int, addedAt: int)
    | AddFor(token: string, ttl: int, addedAt: int)
    | Lookup(token: string, at: int)
    | Remove(token: string)
    | Info(at: int)

  function Addition(token: string, ttl: Option<int>, decodedAt: int, now: int, addedAt: int): Op {
    match ttl
    case None => Blacklist(token, decodedAt, now, addedAt)
    case Some(seconds) => AddFor(token, seconds, addedAt)
  }

  function ExpiresAt(claims: Claims, op: Op): int
    requires op.Blacklist? || op.AddFor?
  {
    match op
    case Blacklist(token, decodedAt, now, addedAt) => addedAt + DefaultTtl(claims, token, decodedAt, now) * SECOND
    case AddFor(_, ttl, addedAt) => addedAt + ttl * SECOND
  }

  predicate Reported(entries: Entries, token: string, now: int) {
    token in entries && now <= entries[token]
  }

  function Apply(claims: Claims, entries: Entries, op: Op): Entries {
    match op
    case Blacklist(token, _, _, _) => entries[token := ExpiresAt(claims, op)]
    case AddFor(token, _, _) => entries[token := ExpiresAt(claims, op)]
    case Lookup(token, at) => if token in entries && at > entries[token] then entries - {token} else entries
    case Remove(token) => entries - {token}
    case Info(at) => map t | t in entries && at <= entries[t] :: entries[t]
  }

  function Run(claims: Claims, ops: seq<Op>): Entries {
    if ops == [] then map[] else Apply(claims, Run(claims, ops[..|ops| - 1]), ops[|ops| - 1])
  }

  class InMemoryBackend {
    var blacklist: Entries

    constructor ()
      ensures blacklist == map[]
    {
      blacklist := map[];
    }

    method Add(token: string, ttl: int, now: int) returns (ok: bool)
      modifies this
      ensures ok
      ensures forall claims: Claims :: blacklist == Apply(claims, old(blacklist), AddFor(token, ttl, now))
      ensures blacklist == old(blacklist)[token := now + ttl * SECOND]
    {
      var expiresAt := now + ttl * SECOND;
      blacklist := blacklist[token := expiresAt];
      return true;
    }

    method Contains(token: string, now: int) returns (found: bool)
      modifies this
      ensures found == Reported(old(blacklist), token, now)
      ensures forall claims: Claims :: blacklist == Apply(claims, old(blacklist), Lookup(token, now))
      ensures found <==> token in old(blacklist) && now <= old(blacklist)[token]
      ensures blacklist == if found then old(blacklist) else old(blacklist) - {token}
    {
      if token !in blacklist {
        return false;
      }
      var expiresAt := blacklist[token];
      if now > expiresAt {
        blacklist := blacklist - {token};
        return false;
      }
      return true;
    }

    method RemoveToken(token: string) returns (removed: bool)
      modifies this
      ensures removed == (token in old(blacklist))
      ensures forall claims: Claims :: blacklist == Apply(claims, old(blacklist), Remove(token))
      ensures blacklist == old(blacklist) - {token}
    {
      removed := token in blacklist;
      if removed {
        blacklist := blacklist - {token};
      }
      assert old(blacklist) - {token} == blacklist;
    }

    method GetInfo(now: int) returns (count: nat)
      modifies this
      ensures forall claims: Claims :: blacklist == Apply(claims, old(blacklist), Info(now))
      ensures count == |blacklist|
      ensures forall t :: t in blacklist <==> t in old(blacklist) && now <= old(blacklist)[t]
      ensures forall t <- blacklist :: blacklist[t] == old(blacklist)[t]
    {
      var expired := set t | t in blacklist && now > blacklist[t];
      while expired != {}
        invariant expired <= old(blacklist).Keys && forall t <- expired :: now > old(blacklist)[t]
        invariant forall t <- blacklist :: t in old(blacklist) && blacklist[t] == old(blacklist)[t]
        invariant forall t <- old(blacklist) :: t in blacklist <==> (now <= old(blacklist)[t] || t in expired)
      {
        var t :| t in expired;
        blacklist := blacklist - {t};
        expired := expired - {t};
      }
      count := |blacklist|;
    }

    /** `add_to_blacklist` with this backend; `ttl` is None for the default. */
    method AddToBlacklist(token: string, ttl: Option<int>, claims: Claims, decodedAt: int, now: int, addedAt: int)
      returns (ok: bool)
      modifies this
      ensures ok
      ensures blacklist == Apply(claims, old(blacklist), Addition(token, ttl, decodedAt, now, addedAt))
      ensures token in blacklist && blacklist == old(blacklist)[token := blacklist[token]]
      ensures ttl.Some? ==> blacklist[token] == addedAt + ttl.value * SECOND
      ensures ttl.None? ==> blacklist[token] == ExpiresAt(claims, Blacklist(token, decodedAt, now, addedAt))
    {
      var seconds;
      match ttl {
        case Some(t) => seconds := t;
        case None =>
          var payload := Decode(claims, token, decodedAt);
          if payload.Some? {
            var left := Truncate(payload.value * SECOND - now);
            seconds := if left < LEAST_TTL then LEAST_TTL else left;
          } else {
            seconds := DEFAULT_TTL;
          }
      }
      assert addedAt + seconds * SECOND == ExpiresAt(claims, Addition(token, ttl, decodedAt, now, addedAt));
      assert Apply(claims, blacklist, AddFor(token, seconds, addedAt))
        == blacklist[token := addedAt + seconds * SECOND];
      ok := Add(token, seconds, addedAt);
    }
  }

  // ---------- How long one entry lasts ----------

  predicate InOrder(op: Op) {
    op.Blacklist? ==> op.decodedAt <= op.now <= op.addedAt
  }

  /** The entry ends less than a second before `exp`, and after it if fewer than 60 seconds
      were left. */
  lemma {:induction false} EntryLasts(claims: Claims, op: Op)
    requires op.Blacklist? && op.token in claims && InOrder(op)
    ensures ExpiresAt(claims, op) > claims[op.token] * SECOND - SECOND
    ensures op.now > (claims[op.token] - LEAST_TTL) * SECOND ==> ExpiresAt(claims, op) > claims[op.token] * SECOND
  {
    var exp := claims[op.token] * SECOND;
    if Decode(claims, op.token, op.decodedAt).Some? {
      var left := exp - op.now;
      if left >= 0 { assert Truncate(left) * SECOND > left - SECOND; }
    }
  }

  /** When an entry with the default time to live ends. Of a token with at least 60 seconds
      left the end is its `exp` or less than a second before, put off by the time between the
      two clock readings; with fewer left the entry lasts 60 seconds, and if the token does
      not decode, a day. */
  lemma {:induction false} EntryEnds(claims: Claims, op: Op)
    requires op.Blacklist?
    ensures var t := op.token;
      if t in claims && op.decodedAt < claims[t] * SECOND then
        var exp, end := claims[t] * SECOND, ExpiresAt(claims, op) - (op.addedAt - op.now);
        if op.now + 60 * SECOND <= exp then exp - SECOND < end <= exp && (end - op.now) % SECOND == 0
        else ExpiresAt(claims, op) == op.addedAt + 60 * SECOND
      else ExpiresAt(claims, op) == op.addedAt + 24 * 60 * 60 * SECOND
  {
    if op.token in claims {
      var left := claims[op.token] * SECOND - op.now;
      if left >= 0 { assert Truncate(left) == left / SECOND; }
    }
  }

  /** An entry made a microsecond into a second ends a microsecond after the bound, long
      before `exp`. */
  lemma OneSecondIsLost(token: string, exp: int)
    requires exp > LEAST_TTL
    ensures var claims: Claims, op := map[token := exp], Blacklist(token, 1, 1, 1);
      InOrder(op) && ExpiresAt(claims, op) == (exp - 1) * SECOND + 1
  {
    assert Truncate(exp * SECOND - 1) == exp - 1;
  }

  // ---------- Whole runs ----------

  /** The last clock reading of an operation. */
  function At(op: Op): int {
    match op
    case Blacklist(_, _, _, addedAt) => addedAt
    case AddFor(_, _, addedAt) => addedAt
    case Lookup(_, at) => at
    case Info(at) => at
    case Remove(_) => 0
  }

  /** Every look at the blacklist is made no later than `end`. */
  predicate LooksBy(ops: seq<Op>, end: int) {
    forall op <- ops :: InOrder(op) && ((op.Lookup? || op.Info?) ==> op.at <= end)
  }

  /** The operation neither removes the token nor gives it a time to live by hand. */
  predicate Spares(op: Op, token: string) {
    !(op.Remove? && op.token == token) && !(op.AddFor? && op.token == token)
  }

  predicate HoldsUntil(entries: Entries, token: string, end: int) {
    token in entries && entries[token] >= end
  }

  lemma {:induction false} HeldFrom(claims: Claims, ops: seq<Op>, i: nat, token: string, end: int)
    requires i < |ops| && ops[i].Blacklist? && ops[i].token == token && token in claims
    requires end <= claims[token] * SECOND - SECOND && LooksBy(ops, end)
    requires forall j | i < j < |ops| :: Spares(ops[j], token)
    ensures HoldsUntil(Run(claims, ops), token, end)
  {
    var n := |ops|;
    var last := ops[n - 1];
    assert last in ops;
    if last.Blacklist? && last.token == token {
      EntryLasts(claims, last);
    } else {
      assert i < n - 1;
      assert forall op <- ops[..n - 1] :: op in ops;
      HeldFrom(claims, ops[..n - 1], i, token, end);
    }
  }

  /** A token blacklisted with the default time to live, and neither removed nor given
      another time to live by hand, is reported at every time up to a second before its
      `exp`; other tokens' operations, lookups, purges and repeated additions change
      nothing. */
  lemma RevocationLasts(claims: Claims, ops: seq<Op>, i: nat, token: string, now: int)
    requires i < |ops| && ops[i].Blacklist? && ops[i].token == token && token in claims
    requires LooksBy(ops, now) && now <= (claims[token] - 1) * SECOND
    requires forall j | i < j < |ops| :: Spares(ops[j], token)
    ensures Reported(Run(claims, ops), token, now)
  {
    HeldFrom(claims, ops, i, token, now);
  }

  predicate Touches(op: Op, token: string) {
    (op.Blacklist? || op.AddFor? || op.Remove?) && op.token == token
  }

  lemma {:induction false} EntryUntilLooked(claims: Claims, ops: seq<Op>, i: nat, token: string)
    requires i < |ops| && (ops[i].Blacklist? || ops[i].AddFor?) && ops[i].token == token
    requires forall j | i < j < |ops| :: !Touches(ops[j], token)
    ensures var entries, end := Run(claims, ops), ExpiresAt(claims, ops[i]);
      if token in entries then entries[token] == end
      else exists j | i < j < |ops| :: (ops[j].Lookup? || ops[j].Info?) && ops[j].at > end
  {
    var n := |ops|;
    if i < n - 1 {
      var before := ops[..n - 1];
      EntryUntilLooked(claims, before, i, token);
      var end := ExpiresAt(claims, ops[i]);
      if token !in Run(claims, before) {
        var j :| i < j < |before| && (before[j].Lookup? || before[j].Info?) && before[j].at > end;
        assert ops[j] == before[j];
      } else if token !in Run(claims, ops) {
        assert (ops[n - 1].Lookup? || ops[n - 1].Info?) && ops[n - 1].at > end;
      }
    }
  }

  /** Until it is touched again, a token is reported exactly up to the end of its entry. */
  lemma {:induction false} ReportedExactlyUntil(claims: Claims, ops: seq<Op>, i: nat, token: string, now: int)
    requires i < |ops| && (ops[i].Blacklist? || ops[i].AddFor?) && ops[i].token == token && LooksBy(ops, now)
    requires forall j | i < j < |ops| :: !Touches(ops[j], token)
    ensures Reported(Run(claims, ops), token, now) <==> now <= ExpiresAt(claims, ops[i])
  {
    EntryUntilLooked(claims, ops, i, token);
    if token !in Run(claims, ops) {
      var j :| i < j < |ops| && (ops[j].Lookup? || ops[j].Info?) && ops[j].at > ExpiresAt(claims, ops[i]);
      assert ops[j] in ops;
    }
  }

  /** In particular a token with fewer than 60 seconds left is still reported at its
      `exp`. */
  lemma ReportedAtExp(claims: Claims, ops: seq<Op>, i: nat, token: string)
    requires i < |ops| && ops[i].Blacklist? && ops[i].token == token && token in claims
    requires ops[i].now > (claims[token] - LEAST_TTL) * SECOND && LooksBy(ops, claims[token] * SECOND)
    requires forall j | i < j < |ops| :: !Touches(ops[j], token)
    ensures Reported(Run(claims, ops), token, claims[token] * SECOND)
  {
    assert ops[i] in ops;
    EntryLasts(claims, ops[i]);
    ReportedExactlyUntil(claims, ops, i, token, claims[token] * SECOND);
  }
}
