/** Refresh tokens and their rotation (src/ldfd/auth/tokens.go, src/ldfd/auth/jwt.go).
    A token stands for its hash; times are integers. */
module RefreshTokens {

  type Token = string

  const LIFETIME: int := 7 * 24 * 3600 * 1_000_000_000
  const DEFAULT_MAX: int := 5

  datatype Row = Row(userID: string, createdAt: int, expiresAt: int, revoked: bool)

  type Rows = map<Token, Row>

  // ---------- the statements ----------

  predicate IsActive(rows: Rows, t: Token, user: string, now: int) {
    t in rows && rows[t].userID == user && !rows[t].revoked && rows[t].expiresAt > now
  }

  function Active(rows: Rows, user: string, now: int): set<Token> {
    set t | t in rows && IsActive(rows, t, user, now)
  }

  function Inserted(rows: Rows, t: Token, user: string, now: int): Rows {
    rows[t := Row(user, now, now + LIFETIME, false)]
  }

  function Revoked(rows: Rows, t: Token): Rows {
    if t in rows then rows[t := rows[t].(revoked := true)] else rows
  }

  function AllRevoked(rows: Rows, user: string): Rows {
    map t | t in rows :: if rows[t].userID == user then rows[t].(revoked := true) else rows[t]
  }

  function WithoutExpired(rows: Rows, now: int): Rows {
    map t | t in rows && !(rows[t].expiresAt < now || rows[t].revoked) :: rows[t]
  }

  function Newer(rows: Rows, among: set<Token>, t: Token): set<Token>
    requires t in rows && among <= rows.Keys
  {
    set u | u in among && rows[u].createdAt > rows[t].createdAt
  }

  /** The `max` most recently created of the active tokens: those with fewer than `max` newer ones. */
  function Kept(rows: Rows, user: string, max: int, now: int): set<Token> {
    var active := Active(rows, user, now);
    set t | t in active && |Newer(rows, active, t)| < max
  }

  /** DELETE of the active tokens that are not among the `max` most recent. */
  function WithoutExcess(rows: Rows, user: string, max: int, now: int): Rows {
    map t | t in rows && (!IsActive(rows, t, user, now) || t in Kept(rows, user, max, now)) :: rows[t]
  }

  datatype Verdict = Accepted(userID: string) | Invalid | IsRevoked | Expired

  function Validated(rows: Rows, t: Token, now: int): Verdict {
    if t !in rows then Invalid
    else if rows[t].revoked then IsRevoked
    else if now > rows[t].expiresAt then Expired
    else Accepted(rows[t].userID)
  }

  /** When the three timed statements of a refresh read the clock. */
  datatype Times = Times(validated: int, created: int, cleaned: int)

  datatype Refreshed = Success(token: Token, userID: string) | Rejected(verdict: Verdict) | UserGone

  function RefreshResult(rows: Rows, t: Token, newToken: Token, userKnown: bool, at: Times): Refreshed {
    var v := Validated(rows, t, at.validated);
    if !v.Accepted? then Rejected(v) else if userKnown then Success(newToken, v.userID) else UserGone
  }

  function RefreshRows(rows: Rows, t: Token, newToken: Token, userKnown: bool, max: int, at: Times): Rows {
    var v := Validated(rows, t, at.validated);
    if !v.Accepted? then rows
    else if !userKnown then Revoked(rows, t)
    else WithoutExcess(Inserted(Revoked(rows, t), newToken, v.userID, at.created), v.userID, max, at.cleaned)
  }

  // ---------- cleaning up changes nobody's standing ----------

  /** The same tokens are accepted, for the same users, and the same ones are active. */
  ghost predicate SameStanding(before: Rows, after: Rows, now: int) {
    && (forall t, user :: Validated(before, t, now) == Accepted(user) <==> Validated(after, t, now) == Accepted(user))
    && (forall user :: Active(before, user, now) == Active(after, user, now))
  }

  /** From the moment of the cleanup on, nobody can tell that expired and revoked rows are gone,
      but by the reason for a rejection. */
  lemma ExpiredUnmissed(rows: Rows, now: int, later: int)
    requires now <= later
    ensures SameStanding(rows, WithoutExpired(rows, now), later)
  {
    var after := WithoutExpired(rows, now);
    forall user
      ensures Active(rows, user, later) == Active(after, user, later)
    {
      forall t
        ensures t in Active(rows, user, later) <==> t in Active(after, user, later)
      {
      }
    }
  }

  // ---------- trimming keeps the newest ----------

  /** What trimming means for a user: at most `max` active tokens remain, as many as there were if that is
      fewer, each newer than every one dropped; every other row is untouched. */
  ghost predicate Trimmed(before: Rows, after: Rows, user: string, max: int, now: int) {
    var had, has := Active(before, user, now), Active(after, user, now);
    && (forall t | t in after :: t in before && after[t] == before[t])
    && (forall t | t in before && t !in had :: t in after)
    && |has| == (if |had| < max then |had| else max)
    && (forall k, d | k in has && d in had - has :: before[k].createdAt > before[d].createdAt)
  }

  ghost predicate DistinctTimes(rows: Rows) {
    forall t, u | t in rows && u in rows && rows[t].createdAt == rows[u].createdAt :: t == u
  }

  lemma {:induction false} Oldest(rows: Rows, s: set<Token>) returns (x: Token)
    requires s != {} && s <= rows.Keys
    ensures x in s && forall t | t in s :: rows[x].createdAt <= rows[t].createdAt
  {
    var y :| y in s;
    if s == {y} {
      x := y;
    } else {
      var z := Oldest(rows, s - {y});
      x := if rows[y].createdAt < rows[z].createdAt then y else z;
    }
  }

  lemma {:induction false} Newest(rows: Rows, s: set<Token>) returns (x: Token)
    requires s != {} && s <= rows.Keys
    ensures x in s && forall t | t in s :: rows[x].createdAt >= rows[t].createdAt
  {
    var y :| y in s;
    if s == {y} {
      x := y;
    } else {
      var z := Newest(rows, s - {y});
      x := if rows[y].createdAt > rows[z].createdAt then y else z;
    }
  }

  lemma SubsetSize(a: set<Token>, b: set<Token>)
    requires a <= b
    ensures |a| <= |b|
  {
    if a != b {
      assert b == a + (b - a);
    }
  }

  lemma KeptSizeAtMost(rows: Rows, user: string, max: int, now: int)
    requires DistinctTimes(rows) && max >= 0
    ensures |Kept(rows, user, max, now)| <= max
  {
    var kept, active := Kept(rows, user, max, now), Active(rows, user, now);
    if kept != {} {
      var x := Oldest(rows, kept);
      SubsetSize(kept - {x}, Newer(rows, active, x));
    }
  }

  /** The kept tokens are the `max` most recent active ones, or all of them if there are fewer. */
  lemma KeptAreNewest(rows: Rows, user: string, max: int, now: int)
    requires DistinctTimes(rows) && max >= 0
    ensures var kept, active := Kept(rows, user, max, now), Active(rows, user, now);
            && kept <= active
            && |kept| == (if |active| < max then |active| else max)
            && forall k, d | k in kept && d in active - kept :: rows[k].createdAt > rows[d].createdAt
  {
    var kept, active := Kept(rows, user, max, now), Active(rows, user, now);
    KeptSizeAtMost(rows, user, max, now);
    SubsetSize(kept, active);
    forall k, d | k in kept && d in active - kept
      ensures rows[k].createdAt > rows[d].createdAt
    {
      if rows[k].createdAt <= rows[d].createdAt {
        SubsetSize(Newer(rows, active, d), Newer(rows, active, k));
      }
    }
    if active - kept != {} {
      var d := Newest(rows, active - kept);
      SubsetSize(Newer(rows, active, d), kept);
    } else {
      forall t | t in active
        ensures t in kept
      {
        assert t !in active - kept;
      }
      assert kept == active;
    }
  }

  lemma ActiveAfterTrim(rows: Rows, user: string, max: int, now: int)
    ensures Active(WithoutExcess(rows, user, max, now), user, now) == Kept(rows, user, max, now)
  {
  }

  /** Right after a successful refresh the user has between 1 and `max` active tokens,
      among them the one just returned; the one presented is not. */
  lemma RefreshBounds(rows: Rows, t: Token, newToken: Token, max: int, at: Times)
    requires DistinctTimes(rows) && max >= 1 && newToken !in rows
    requires forall u | u in rows :: rows[u].createdAt < at.created
    requires at.created <= at.cleaned < at.created + LIFETIME
    requires RefreshResult(rows, t, newToken, true, at).Success?
    ensures var user := RefreshResult(rows, t, newToken, true, at).userID;
            var active := Active(RefreshRows(rows, t, newToken, true, max, at), user, at.cleaned);
            && newToken in active && t !in active && 1 <= |active| <= max
            && RefreshResult(rows, t, newToken, true, at).token in active
  {
    var user := RefreshResult(rows, t, newToken, true, at).userID;
    var full := Inserted(Revoked(rows, t), newToken, user, at.created);
    ActiveAfterTrim(full, user, max, at.cleaned);
    KeptSizeAtMost(full, user, max, at.cleaned);
    var active := Active(full, user, at.cleaned);
    assert Newer(full, active, newToken) == {};
    assert newToken in Kept(full, user, max, at.cleaned);
    SubsetSize({newToken}, Kept(full, user, max, at.cleaned));
  }

  // ---------- the store ----------

  class TokenStore {
    const maxRefreshTokens: int
    var rows: Rows

    constructor (maxRefreshTokens: int)
      ensures rows == map[] && this.maxRefreshTokens == if maxRefreshTokens <= 0 then DEFAULT_MAX else maxRefreshTokens
    {
      this.maxRefreshTokens := if maxRefreshTokens <= 0 then DEFAULT_MAX else maxRefreshTokens;
      rows := map[];
    }

    method CreateRefreshToken(user: string, token: Token, now: int)
      modifies this
      ensures rows == Inserted(old(rows), token, user, now)
    {
      rows := rows[token := Row(user, now, now + LIFETIME, false)];
    }

    method ValidateRefreshToken(token: Token, now: int) returns (v: Verdict)
      ensures v == Validated(rows, token, now)
    {
      if token !in rows {
        return Invalid;
      }
      var rt := rows[token];
      if rt.revoked {
        return IsRevoked;
      }
      if now > rt.expiresAt {
        return Expired;
      }
      return Accepted(rt.userID);
    }

    method RevokeRefreshToken(token: Token)
      modifies this
      ensures rows == Revoked(old(rows), token)
    {
      if token in rows {
        rows := rows[token := rows[token].(revoked := true)];
      }
    }

    method CleanupExcessTokens(user: string, max: int, now: int)
      modifies this
      ensures rows == WithoutExcess(old(rows), user, max, now)
      ensures max >= 0 && DistinctTimes(old(rows)) ==> Trimmed(old(rows), rows, user, max, now)
    {
      if max >= 0 && DistinctTimes(rows) {
        KeptAreNewest(rows, user, max, now);
        ActiveAfterTrim(rows, user, max, now);
      }
      rows := WithoutExcess(rows, user, max, now);
    }

    method CleanupExpiredTokens(now: int)
      modifies this
      ensures rows == WithoutExpired(old(rows), now)
      ensures rows.Keys <= old(rows).Keys && (forall t | t in rows :: rows[t] == old(rows)[t])
      ensures forall t | t in old(rows) :: t in rows <==> !old(rows)[t].revoked && now <= old(rows)[t].expiresAt
      ensures forall later | now <= later :: SameStanding(old(rows), rows, later)
    {
      forall later | now <= later {
        ExpiredUnmissed(rows, now, later);
      }
      rows := WithoutExpired(rows, now);
    }

    method RevokeAllUserRefreshTokens(user: string)
      modifies this
      ensures rows == AllRevoked(old(rows), user)
    {
      rows := AllRevoked(rows, user);
    }

    /** Validate, revoke, look the user up, issue a new token, trim. */
    method RefreshAccessToken(token: Token, newToken: Token, userKnown: bool, at: Times) returns (r: Refreshed)
      modifies this
      ensures r == RefreshResult(old(rows), token, newToken, userKnown, at)
      ensures rows == RefreshRows(old(rows), token, newToken, userKnown,
                                  if maxRefreshTokens <= 0 then DEFAULT_MAX else maxRefreshTokens, at)
    {
      var v := ValidateRefreshToken(token, at.validated);
      if !v.Accepted? {
        return Rejected(v);
      }
      RevokeRefreshToken(token);
      if !userKnown {
        return UserGone;
      }
      CreateRefreshToken(v.userID, newToken, at.created);
      var maxTokens := maxRefreshTokens;
      if maxTokens <= 0 {
        maxTokens := DEFAULT_MAX;
      }
      CleanupExcessTokens(v.userID, maxTokens, at.cleaned);
      return Success(newToken, v.userID);
    }
  }

  // ---------- runs ----------

  datatype Op =
    | Login(user: string, issued: Token, at: int)
    | Refresh(token: Token, issued: Token, userKnown: bool, times: Times)
    | Logout(token: Token)
    | LogoutEverywhere(user: string)
    | CleanupExpired(at: int)

  function Next(rows: Rows, op: Op, max: int): Rows {
    match op
    case Login(user, issued, at) => Inserted(rows, issued, user, at)
    case Refresh(token, issued, userKnown, times) => RefreshRows(rows, token, issued, userKnown, max, times)
    case Logout(token) => Revoked(rows, token)
    case LogoutEverywhere(user) => AllRevoked(rows, user)
    case CleanupExpired(at) => WithoutExpired(rows, at)
  }

  /** The table after the first `n` operations, starting from an empty one. */
  ghost function After(ops: seq<Op>, n: nat, max: int): Rows
    requires n <= |ops|
  {
    if n == 0 then map[] else Next(After(ops, n - 1, max), ops[n - 1], max)
  }

  ghost predicate Issues(op: Op) {
    op.Login? || op.Refresh?
  }

  function Created(op: Op): int
    requires op.Login? || op.Refresh?
  {
    if op.Login? then op.at else op.times.created
  }

  /** No token value is generated twice, and no two creations read the same time. */
  ghost predicate DistinctIssues(ops: seq<Op>) {
    forall i, j | 0 <= i < j < |ops| && Issues(ops[i]) && Issues(ops[j]) ::
      ops[i].issued != ops[j].issued && Created(ops[i]) < Created(ops[j])
  }

  /** Every row was issued by an operation before, at its time of creation. */
  lemma {:induction false} RowsWereIssued(ops: seq<Op>, n: nat, max: int, t: Token) returns (i: nat)
    requires n <= |ops| && t in After(ops, n, max)
    ensures i < n && Issues(ops[i]) && ops[i].issued == t && Created(ops[i]) == After(ops, n, max)[t].createdAt
  {
    var before := After(ops, n - 1, max);
    var op := ops[n - 1];
    if t in before && before[t].createdAt == After(ops, n, max)[t].createdAt {
      i := RowsWereIssued(ops, n - 1, max, t);
    } else {
      i := n - 1;
    }
  }

  lemma RowsDistinct(ops: seq<Op>, n: nat, max: int)
    requires n <= |ops| && DistinctIssues(ops)
    ensures DistinctTimes(After(ops, n, max))
    ensures n < |ops| && Issues(ops[n]) ==>
              ops[n].issued !in After(ops, n, max)
              && forall u | u in After(ops, n, max) :: After(ops, n, max)[u].createdAt < Created(ops[n])
  {
    var rows := After(ops, n, max);
    forall t, u | t in rows && u in rows && rows[t].createdAt == rows[u].createdAt
      ensures t == u
    {
      var i := RowsWereIssued(ops, n, max, t);
      var j := RowsWereIssued(ops, n, max, u);
    }
    if n < |ops| && Issues(ops[n]) {
      forall u | u in rows
        ensures u != ops[n].issued && rows[u].createdAt < Created(ops[n])
      {
        var i := RowsWereIssued(ops, n, max, u);
      }
    }
  }

  /** A token that can never be accepted again unless it is generated again. */
  ghost predicate Dead(rows: Rows, t: Token) {
    t in rows ==> rows[t].revoked
  }

  lemma StaysDead(rows: Rows, op: Op, max: int, t: Token)
    requires Dead(rows, t) && (Issues(op) ==> op.issued != t)
    ensures Dead(Next(rows, op, max), t)
  {
  }

  ghost predicate AcceptedAt(ops: seq<Op>, n: nat, max: int, t: Token)
    requires n < |ops|
  {
    ops[n].Refresh? && ops[n].token == t && Validated(After(ops, n, max), t, ops[n].times.validated).Accepted?
  }

  lemma {:induction false} DeadFrom(ops: seq<Op>, i: nat, n: nat, max: int, t: Token)
    requires i < n <= |ops| && DistinctIssues(ops) && AcceptedAt(ops, i, max, t)
    ensures Dead(After(ops, n, max), t)
    decreases n
  {
    var k := RowsWereIssued(ops, i, max, t);
    if n == i + 1 {
      var rows := After(ops, i, max);
      assert Issues(ops[i]) && ops[i].issued != t;
      assert Revoked(rows, t)[t].revoked;
    } else {
      DeadFrom(ops, i, n - 1, max, t);
      StaysDead(After(ops, n - 1, max), ops[n - 1], max, t);
    }
  }

  // ---------- until then it is accepted ----------

  /** Seven days, in nanoseconds. */
  lemma {:induction false} ExpiryIsAWeek(ops: seq<Op>, n: nat, max: int, t: Token)
    requires n <= |ops| && t in After(ops, n, max)
    ensures After(ops, n, max)[t].expiresAt == After(ops, n, max)[t].createdAt + 604_800_000_000_000
  {
    if n == 0 {
    } else if t in After(ops, n - 1, max) {
      ExpiryIsAWeek(ops, n - 1, max, t);
    }
  }

  /** The operation neither presents the token nor logs it out, cleans up before it expires, and issues to
      its user no more tokens than the user may have. */
  ghost predicate Spares(rows: Rows, op: Op, max: int, t: Token)
    requires t in rows
  {
    match op
    case Login(_, issued, _) => issued != t
    case Refresh(token, issued, _, times) =>
      && token != t && issued != t
      && |Newer(rows, Active(rows, rows[t].userID, times.cleaned), t)| + 1 < max
    case Logout(token) => token != t
    case LogoutEverywhere(user) => user != rows[t].userID
    case CleanupExpired(at) => at <= rows[t].expiresAt
  }

  lemma TrimSpares(rows: Rows, token: Token, issued: Token, user: string, max: int, at: Times, t: Token)
    requires t in rows && token != t && issued != t && issued !in rows && user == rows[t].userID
    requires |Newer(rows, Active(rows, user, at.cleaned), t)| + 1 < max
    ensures var full := Inserted(Revoked(rows, token), issued, user, at.created);
            !IsActive(full, t, user, at.cleaned) || t in Kept(full, user, max, at.cleaned)
  {
    var full := Inserted(Revoked(rows, token), issued, user, at.created);
    var few := Newer(rows, Active(rows, user, at.cleaned), t);
    SubsetSize(Newer(full, Active(full, user, at.cleaned), t), few + {issued});
  }

  lemma SparedStays(rows: Rows, op: Op, max: int, t: Token)
    requires t in rows && !rows[t].revoked && Spares(rows, op, max, t)
    requires Issues(op) ==> op.issued !in rows
    ensures t in Next(rows, op, max) && Next(rows, op, max)[t] == rows[t]
  {
    if op.Refresh? {
      var v := Validated(rows, op.token, op.times.validated);
      if v.Accepted? && op.userKnown && v.userID == rows[t].userID {
        TrimSpares(rows, op.token, op.issued, v.userID, max, op.times, t);
      }
    }
  }

  lemma {:induction false} SparedThroughout(ops: seq<Op>, i: nat, n: nat, max: int, t: Token)
    requires i <= n <= |ops| && DistinctIssues(ops)
    requires t in After(ops, i, max) && !After(ops, i, max)[t].revoked
    requires forall j | i <= j < n && t in After(ops, j, max) :: Spares(After(ops, j, max), ops[j], max, t)
    ensures t in After(ops, n, max) && After(ops, n, max)[t] == After(ops, i, max)[t]
    decreases n
  {
    if n == i {
    } else {
      var m: nat := n - 1;
      SparedThroughout(ops, i, m, max, t);
      RowsDistinct(ops, m, max);
      SparedStays(After(ops, m, max), ops[m], max, t);
    }
  }

  /** In every run, a token that is active and then spared is accepted when it is presented,
      for its user, up to a week after it was issued and no longer. */
  lemma AcceptedForAWeek(ops: seq<Op>, i: nat, n: nat, max: int, t: Token)
    requires i <= n < |ops| && DistinctIssues(ops)
    requires t in After(ops, i, max) && !After(ops, i, max)[t].revoked
    requires forall j | i <= j < n && t in After(ops, j, max) :: Spares(After(ops, j, max), ops[j], max, t)
    requires ops[n].Refresh? && ops[n].token == t
    ensures var row := After(ops, i, max)[t];
            && (AcceptedAt(ops, n, max, t) <==> ops[n].times.validated <= row.createdAt + 604_800_000_000_000)
            && (AcceptedAt(ops, n, max, t) && ops[n].userKnown ==>
                  RefreshResult(After(ops, n, max), t, ops[n].issued, true, ops[n].times)
                  == Success(ops[n].issued, row.userID))
  {
    SparedThroughout(ops, i, n, max, t);
    ExpiryIsAWeek(ops, i, max, t);
  }

  /** A login leaves its token active for its user. */
  lemma LoginIssues(ops: seq<Op>, i: nat, max: int)
    requires i < |ops| && ops[i].Login?
    ensures ops[i].issued in After(ops, i + 1, max)
    ensures var row := After(ops, i + 1, max)[ops[i].issued];
            !row.revoked && row.userID == ops[i].user && row.createdAt == ops[i].at
  {
  }

  /** Logging out everywhere ends all tokens of the user and touches nobody else's; logging out ends one. */
  lemma LogoutMeaning(rows: Rows, user: string, t: Token, now: int)
    ensures Active(AllRevoked(rows, user), user, now) == {}
    ensures forall u | u in rows && rows[u].userID != user ::
              u in AllRevoked(rows, user) && AllRevoked(rows, user)[u] == rows[u]
    ensures !Validated(Revoked(rows, t), t, now).Accepted?
    ensures forall u | u in rows && u != t :: u in Revoked(rows, t) && Revoked(rows, t)[u] == rows[u]
  {
  }

  /** In every run a refresh token is accepted at most once, whatever cleanups and logouts happen between. */
  lemma AcceptedOnce(ops: seq<Op>, i: nat, j: nat, max: int, t: Token)
    requires i < j < |ops| && DistinctIssues(ops) && AcceptedAt(ops, i, max, t)
    ensures !AcceptedAt(ops, j, max, t)
  {
    DeadFrom(ops, i, j, max, t);
  }

  /** In every run, each successful refresh leaves its user between 1 and `max` active tokens,
      the returned one included. */
  lemma BoundedAfterRefresh(ops: seq<Op>, n: nat, max: int)
    requires n < |ops| && DistinctIssues(ops) && max >= 1
    requires ops[n].Refresh? && ops[n].userKnown
    requires ops[n].times.created <= ops[n].times.cleaned < ops[n].times.created + LIFETIME
    requires AcceptedAt(ops, n, max, ops[n].token)
    ensures var user := After(ops, n, max)[ops[n].token].userID;
            var active := Active(After(ops, n + 1, max), user, ops[n].times.cleaned);
            ops[n].issued in active && ops[n].token !in active && 1 <= |active| <= max
  {
    RowsDistinct(ops, n, max);
    RefreshBounds(After(ops, n, max), ops[n].token, ops[n].issued, max, ops[n].times);
  }
}
