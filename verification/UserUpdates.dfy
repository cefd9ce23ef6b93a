/** Tokens are invalidated by updates of their user: a token is rejected when it was issued
    in an earlier second than the user's `updated_at`.

    `RejectedExactly` says this of whole runs of user operations, `RejectionLasts` that a
    rejected token stays rejected, `FreshTokensPass` that a token issued since the latest
    update passes; `SameSecondSurvives` shows that a token issued in the second of an update
    survives it. `iat` is section 4.1.6 of RFC 7519. */
module UserUpdates {
  import opened Options

  // Times are microseconds; `iat` is seconds.
  const SECOND := 1_000_000
  const HISTORY := 5

  /** A replaced password, with the time of its replacement. */
  datatype Past = Past(hashedPassword: string, changedAt: nat)

  datatype User = User(
    role: string,
    isActive: bool,
    updatedAt: nat,
    lastLoginAt: Option<nat>,
    hashedPassword: string,
    passwordHistory: seq<Past>,
    passwordChangedAt: Option<nat>,
    mustChangePassword: bool)

  type Users = map<string, User>

  // ---------- Tokens ----------

  /** The `iat` claim of a token created at `now`: JWT times are whole seconds. */
  function IssuedAt(now: nat): nat {
    now / SECOND
  }

  /** `is_token_invalidated_by_user_update` for a decoded payload; a missing `iat` and an
      `iat` of 0 count alike. */
  predicate Invalidated(iat: Option<nat>, updatedAt: Option<nat>) {
    match updatedAt
    case None => false
    case Some(updated) =>
      match iat
      case None => true
      case Some(seconds) => seconds == 0 || seconds * SECOND < updated / SECOND * SECOND
  }

  // ---------- The repository ----------

  datatype Op =
    | Update(id: string, role: Option<string>, isActive: Option<bool>, now: nat)
    | UpdatePassword(id: string, hashedPassword: string, savedAt: nat, changedAt: nat, now: nat)
    | Delete(id: string, now: nat)
    | UpdateLastLogin(id: string, now: nat)

  function Or<T>(o: Option<T>, value: T): T {
    if o.Some? then o.value else value
  }

  function FirstFive(xs: seq<Past>): seq<Past> {
    if |xs| <= HISTORY then xs else xs[..HISTORY]
  }

  function ApplyTo(user: User, op: Op): User {
    match op
    case Update(_, role, isActive, now) =>
      user.(role := Or(role, user.role), isActive := Or(isActive, user.isActive), updatedAt := now)
    case UpdatePassword(_, hashedPassword, savedAt, changedAt, now) =>
      user.(passwordHistory := if user.hashedPassword == "" then user.passwordHistory
                               else FirstFive([Past(user.hashedPassword, savedAt)] + user.passwordHistory),
            hashedPassword := hashedPassword, mustChangePassword := false,
            passwordChangedAt := Some(changedAt), updatedAt := now)
    case Delete(_, now) => user.(isActive := false, updatedAt := now)
    case UpdateLastLogin(_, now) => user.(lastLoginAt := Some(now))
  }

  function Apply(users: Users, op: Op): Users {
    if op.id in users then users[op.id := ApplyTo(users[op.id], op)] else users
  }

  function Run(users: Users, ops: seq<Op>): Users {
    if ops == [] then users else Apply(Run(users, ops[..|ops| - 1]), ops[|ops| - 1])
  }

  class UserRepository {
    var users: Users

    constructor (users: Users)
      ensures this.users == users
    {
      this.users := users;
    }

    method Update(id: string, role: Option<string>, isActive: Option<bool>, now: nat) returns (found: Option<User>)
      modifies this
      ensures users == Apply(old(users), Op.Update(id, role, isActive, now)) && found == Find(users, id)
      ensures id !in old(users) ==> users == old(users)
      ensures id in old(users) ==>
        var was := old(users)[id];
        users == old(users)[id := was.(updatedAt := now,
                                       role := if role.Some? then role.value else was.role,
                                       isActive := if isActive.Some? then isActive.value else was.isActive)]
    {
      if id !in users {
        return None;
      }
      var user := users[id];
      if role.Some? {
        user := user.(role := role.value);
      }
      if isActive.Some? {
        user := user.(isActive := isActive.value);
      }
      user := user.(updatedAt := now);
      users := users[id := user];
      return Some(user);
    }

    /** The clock is read once for the history, once for the change and once for the update. */
    method UpdatePassword(id: string, hashedPassword: string, savedAt: nat, changedAt: nat, now: nat) returns (ok: bool)
      modifies this
      ensures users == Apply(old(users), Op.UpdatePassword(id, hashedPassword, savedAt, changedAt, now))
      ensures ok == (id in users) && (id !in old(users) ==> users == old(users))
      ensures id in old(users) ==>
        && id in users
        && users == old(users)[id := old(users)[id].(hashedPassword := hashedPassword, mustChangePassword := false,
                                                     passwordChangedAt := Some(changedAt), updatedAt := now,
                                                     passwordHistory := users[id].passwordHistory)]
    {
      if id !in users {
        return false;
      }
      var user := users[id];
      if user.hashedPassword != "" {
        user := user.(passwordHistory := FirstFive([Past(user.hashedPassword, savedAt)] + user.passwordHistory));
      }
      user := user.(hashedPassword := hashedPassword, mustChangePassword := false);
      user := user.(passwordChangedAt := Some(changedAt));
      user := user.(updatedAt := now);
      users := users[id := user];
      return true;
    }

    method Delete(id: string, now: nat) returns (ok: bool)
      modifies this
      ensures users == Apply(old(users), Op.Delete(id, now)) && ok == (id in users)
      ensures id !in old(users) ==> users == old(users)
      ensures id in old(users) ==> users == old(users)[id := old(users)[id].(isActive := false, updatedAt := now)]
    {
      if id !in users {
        return false;
      }
      users := users[id := users[id].(isActive := false, updatedAt := now)];
      return true;
    }

    method UpdateLastLogin(id: string, now: nat)
      modifies this
      ensures users == Apply(old(users), Op.UpdateLastLogin(id, now))
      ensures id !in old(users) ==> users == old(users)
      ensures id in old(users) ==> users == old(users)[id := old(users)[id].(lastLoginAt := Some(now))]
    {
      if id in users {
        users := users[id := users[id].(lastLoginAt := Some(now))];
      }
    }
  }

  // ---------- Whole runs ----------

  /** The operations that move `updated_at`; logging in is not one. */
  predicate Moves(op: Op, id: string) {
    op.id == id && !op.UpdateLastLogin?
  }

  /** The time of the latest update of a user created at `created`. */
  function LatestUpdate(ops: seq<Op>, id: string, created: nat): nat {
    if ops == [] then created
    else if Moves(ops[|ops| - 1], id) then ops[|ops| - 1].now
    else LatestUpdate(ops[..|ops| - 1], id, created)
  }

  lemma {:induction false} UpdatedAtIsLatest(users: Users, ops: seq<Op>, id: string)
    requires id in users
    ensures id in Run(users, ops) && Run(users, ops)[id].updatedAt == LatestUpdate(ops, id, users[id].updatedAt)
  {
    if ops != [] { UpdatedAtIsLatest(users, ops[..|ops| - 1], id); }
  }

  /** Whether a run leaves a user active: by the latest operation that says so. */
  function ActiveAfter(first: bool, ops: seq<Op>, id: string): bool {
    if ops == [] then first
    else
      var op, before := ops[|ops| - 1], ActiveAfter(first, ops[..|ops| - 1], id);
      if op.id != id then before
      else match op
        case Update(_, _, Some(active), _) => active
        case Delete(_, _) => false
        case _ => before
  }

  /** And the role it leaves. */
  function RoleAfter(first: string, ops: seq<Op>, id: string): string {
    if ops == [] then first
    else
      var op := ops[|ops| - 1];
      if op.id == id && op.Update? && op.role.Some? then op.role.value
      else RoleAfter(first, ops[..|ops| - 1], id)
  }

  /** A user is active, and has the role, that the latest operation on it said, and no other
      user comes or goes. */
  lemma {:induction false} StatusIsLatest(users: Users, ops: seq<Op>, id: string)
    ensures Run(users, ops).Keys == users.Keys
    ensures id in users ==>
      && Run(users, ops)[id].isActive == ActiveAfter(users[id].isActive, ops, id)
      && Run(users, ops)[id].role == RoleAfter(users[id].role, ops, id)
  {
    if ops != [] { StatusIsLatest(users, ops[..|ops| - 1], id); }
  }

  predicate Rejected(users: Users, id: string, iat: Option<nat>)
    requires id in users
  {
    Invalidated(iat, Some(users[id].updatedAt))
  }

  /** A token is rejected exactly when it has no usable `iat` or was issued in an earlier
      second than that of the user's latest update; without an update none is. */
  lemma {:induction false} RejectedExactly(users: Users, ops: seq<Op>, id: string, iat: Option<nat>)
    requires id in users
    ensures id in Run(users, ops)
    ensures Rejected(Run(users, ops), id, iat) <==>
      iat.None? || iat.value == 0 || iat.value < LatestUpdate(ops, id, users[id].updatedAt) / SECOND
    ensures !Invalidated(iat, None)
  {
    UpdatedAtIsLatest(users, ops, id);
  }

  /** The clock does not go back. */
  predicate Ordered(users: Users, ops: seq<Op>, id: string)
    requires id in users
  {
    && (forall op <- ops :: users[id].updatedAt <= op.now)
    && forall i, j | 0 <= i < j < |ops| :: ops[i].now <= ops[j].now
  }

  lemma {:induction false} LatestIsPast(ops: seq<Op>, id: string, created: nat, now: nat)
    requires created <= now && forall i | 0 <= i < |ops| :: ops[i].now <= now
    ensures LatestUpdate(ops, id, created) <= now
  {
    if ops != [] { LatestIsPast(ops[..|ops| - 1], id, created, now); }
  }

  lemma {:induction false} LatestUpdateGrows(ops: seq<Op>, n: nat, id: string, created: nat)
    requires n <= |ops| && forall i | 0 <= i < |ops| :: created <= ops[i].now
    requires forall i, j | 0 <= i < j < |ops| :: ops[i].now <= ops[j].now
    ensures LatestUpdate(ops[..n], id, created) <= LatestUpdate(ops, id, created)
    decreases |ops|
  {
    if n == |ops| {
      assert ops[..n] == ops;
    } else {
      var last := |ops| - 1;
      assert ops[..last][..n] == ops[..n];
      LatestUpdateGrows(ops[..last], n, id, created);
      LatestIsPast(ops[..n], id, created, ops[last].now);
    }
  }

  /** Once rejected, a token stays rejected. */
  lemma RejectionLasts(users: Users, ops: seq<Op>, more: seq<Op>, id: string, iat: Option<nat>)
    requires id in users && Ordered(users, ops + more, id)
    ensures id in Run(users, ops) && id in Run(users, ops + more)
    ensures Rejected(Run(users, ops), id, iat) ==> Rejected(Run(users, ops + more), id, iat)
  {
    RejectedExactly(users, ops, id, iat);
    RejectedExactly(users, ops + more, id, iat);
    var all := ops + more;
    assert all[..|ops|] == ops;
    forall i | 0 <= i < |all| ensures users[id].updatedAt <= all[i].now { assert all[i] in all; }
    LatestUpdateGrows(all, |ops|, id, users[id].updatedAt);
  }

  /** A token issued at or after the latest update, and not in the first second of the
      epoch, passes. */
  lemma FreshTokensPass(users: Users, ops: seq<Op>, id: string, now: nat)
    requires id in users && LatestUpdate(ops, id, users[id].updatedAt) <= now && SECOND <= now
    ensures id in Run(users, ops) && !Rejected(Run(users, ops), id, Some(IssuedAt(now)))
  {
    RejectedExactly(users, ops, id, Some(IssuedAt(now)));
  }

  /** A token issued before an update is rejected after it exactly if the update falls in a
      later second. */
  lemma SameSecondSurvives(users: Users, ops: seq<Op>, op: Op, id: string, issued: nat)
    requires id in users && Moves(op, id) && SECOND <= issued <= op.now
    ensures id in Run(users, ops + [op])
    ensures Rejected(Run(users, ops + [op]), id, Some(IssuedAt(issued))) <==> issued / SECOND < op.now / SECOND
  {
    assert (ops + [op])[..|ops|] == ops;
    RejectedExactly(users, ops + [op], id, Some(IssuedAt(issued)));
  }

  // ---------- Password history ----------

  /** The passwords of a user that a run replaced, the latest first; an account without a
      password has none to keep. */
  function Replaced(users: Users, ops: seq<Op>, id: string): seq<Past>
    requires id in users
  {
    if ops == [] then []
    else
      var before, op := ops[..|ops| - 1], ops[|ops| - 1];
      var current := Password(users[id].hashedPassword, before, id);
      if op.UpdatePassword? && op.id == id && current != "" then
        [Past(current, op.savedAt)] + Replaced(users, before, id)
      else Replaced(users, before, id)
  }

  function Password(first: string, ops: seq<Op>, id: string): string {
    if ops == [] then first
    else if ops[|ops| - 1].UpdatePassword? && ops[|ops| - 1].id == id then ops[|ops| - 1].hashedPassword
    else Password(first, ops[..|ops| - 1], id)
  }

  /** The history holds the last five passwords that were replaced. */
  lemma {:induction false} HistoryKeepsFive(users: Users, ops: seq<Op>, id: string)
    requires id in users && |users[id].passwordHistory| <= HISTORY
    ensures id in Run(users, ops)
    ensures Run(users, ops)[id].hashedPassword == Password(users[id].hashedPassword, ops, id)
    ensures Run(users, ops)[id].passwordHistory == FirstFive(Replaced(users, ops, id) + users[id].passwordHistory)
    ensures var all := Replaced(users, ops, id) + users[id].passwordHistory;
      Run(users, ops)[id].passwordHistory <= all
      && |Run(users, ops)[id].passwordHistory| == if |all| < 5 then |all| else 5
  {
    var kept := users[id].passwordHistory;
    if ops == [] {
      assert [] + kept == kept;
    } else {
      var before, op := ops[..|ops| - 1], ops[|ops| - 1];
      HistoryKeepsFive(users, before, id);
      var rest := Replaced(users, before, id) + kept;
      var current := Password(users[id].hashedPassword, before, id);
      if op.UpdatePassword? {
        var past := Past(current, op.savedAt);
        assert [past] + Replaced(users, before, id) + kept == [past] + rest;
        assert FirstFive([past] + FirstFive(rest)) == FirstFive([past] + rest);
      }
    }
  }
}
