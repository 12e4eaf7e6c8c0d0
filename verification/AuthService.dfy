/** Login, lockout and one-time tokens over a database with transactions: each request works on its own
    copy, which is committed or rolled back at its end, and sometimes earlier. */
module AuthService {
  import opened Common
  import opened SessionStore
  import opened SessionService

  /** Times in microseconds. */
  const MINUTE := 60_000_000
  const HOUR := 60 * MINUTE

  const VERIFICATION_TOKEN_TTL := 24 * HOUR
  const RESET_TOKEN_TTL := HOUR

  datatype Status = Pending | Active | Blocked | Locked

  /** Passwords and mailed tokens are opaque; their hashes tell them apart exactly. */
  datatype Secret = Secret(id: nat)

  datatype User = User(status: Status, password: Secret, failed: nat, lockedUntil: Option<int>, verifiedAt: Option<int>)

  datatype Mailed = Mailed(user: UserId, expiresAt: int, used: bool)

  datatype Db = Db(
    users: map<UserId, User>, verifications: map<Secret, Mailed>, resets: map<Secret, Mailed>, sessions: map<nat, Row>)

  const EMPTY := Db(map[], map[], map[], map[])

  // ----- lockout

  datatype Tier = Tier(threshold: nat, duration: int)

  const BRUTE_FORCE_TIERS: seq<Tier> :=
    [Tier(5, 5 * MINUTE), Tier(10, 15 * MINUTE), Tier(15, 45 * MINUTE), Tier(20, 90 * MINUTE)]

  /** The first tier, from `i` on, whose threshold is reached. */
  function FirstTier(failed: nat, i: nat): Option<int>
    requires i <= |BRUTE_FORCE_TIERS|
    decreases |BRUTE_FORCE_TIERS| - i
  {
    if i == |BRUTE_FORCE_TIERS| then None
    else if failed >= BRUTE_FORCE_TIERS[i].threshold then Some(BRUTE_FORCE_TIERS[i].duration)
    else FirstTier(failed, i + 1)
  }

  /** The highest tier among the first `n` whose threshold is reached: what the table suggests. */
  function HighestTier(failed: nat, n: nat): Option<int>
    requires n <= |BRUTE_FORCE_TIERS|
  {
    if n == 0 then None
    else if failed >= BRUTE_FORCE_TIERS[n - 1].threshold then Some(BRUTE_FORCE_TIERS[n - 1].duration)
    else HighestTier(failed, n - 1)
  }

  /** The scan goes upwards and stops at the first match, so every lockout lasts five minutes. */
  method BruteForceDuration(failed: nat) returns (duration: Option<int>)
    ensures duration == if failed >= 5 then Some(5 * MINUTE) else None
  {
    TiersDoNotEscalate(failed);
    for i := 0 to |BRUTE_FORCE_TIERS|
      invariant FirstTier(failed, 0) == FirstTier(failed, i)
    {
      if failed >= BRUTE_FORCE_TIERS[i].threshold {
        return Some(BRUTE_FORCE_TIERS[i].duration);
      }
    }
    duration := None;
  }

  /** The scan gives the duration of the tier reached exactly up to nine failures. */
  lemma {:induction false} TiersDoNotEscalate(failed: nat)
    ensures FirstTier(failed, 0) == HighestTier(failed, 4) <==> failed < 10
    ensures FirstTier(failed, 0) == if failed >= 5 then Some(300 * 1_000_000) else None
    ensures HighestTier(failed, 4) == if failed < 5 then None else if failed < 10 then Some(300 * 1_000_000)
                                      else if failed < 15 then Some(900 * 1_000_000)
                                      else if failed < 20 then Some(2700 * 1_000_000) else Some(5400 * 1_000_000)
  {
    assert FirstTier(failed, 4) == None;
    assert HighestTier(failed, 0) == None;
    assert HighestTier(failed, 2) == if failed >= 10 then Some(15 * MINUTE) else HighestTier(failed, 1);
    assert FirstTier(failed, 2) == if failed >= 15 then Some(45 * MINUTE) else FirstTier(failed, 3);
  }

  predicate IsLockedOut(user: User, now: int) {
    user.status.Blocked? || user.status.Locked? || (user.lockedUntil.Some? && user.lockedUntil.value > now)
  }

  function AfterFailure(user: User, now: int): User {
    var failed := user.failed + 1;
    if failed >= 5 then user.(failed := failed, lockedUntil := Some(now + 5 * MINUTE)) else user.(failed := failed)
  }

  // ----- requests

  /** A request, with the clock readings it makes in order; identifiers and tokens it generates are
      given.  `user` is the account found for an e-mail address, if any. */
  datatype Request =
    | LoginRequest(ipBlocked: bool, user: Option<UserId>, password: Secret, verificationRequired: bool,
                   checkedAt: int, evaluatedAt: int, sessionId: nat, sessionToken: Token)
    | RegisterRequest(newUser: UserId, newPassword: Secret, mailToken: Secret, at: int)
    | ResendRequest(who: UserId, mailToken: Secret, at: int)
    | ForgotRequest(user: Option<UserId>, mailToken: Secret, at: int)
    | VerifyRequest(token: Secret, at: int)
    | ResetRequest(matching: bool, strong: bool, token: Secret, newPassword: Secret, at: int)
    | LogoutRequest(session: Token)
    | StatusRequest(account: UserId, action: Action, admin: Option<UserId>)
    | ConfirmRequest(account: UserId, at: int)

  /** What an administrator does to the status of an account. */
  datatype Action = Block | Unblock | Lock | Unlock

  function NewStatus(action: Action): Status {
    match action
    case Block => Blocked
    case Unblock => Active
    case Lock => Locked
    case Unlock => Active
  }

  datatype LoginResult = RateLimited | InvalidCredentials | EmailNotVerified | LoggedIn | ServerError

  function LoginOutcome(db: Db, r: Request): LoginResult
    requires r.LoginRequest?
  {
    if r.ipBlocked then RateLimited
    else if r.user.None? || r.user.value !in db.users then InvalidCredentials
    else
      var user := db.users[r.user.value];
      if IsLockedOut(user, r.checkedAt) || r.password != user.password then InvalidCredentials
      else if r.verificationRequired && user.verifiedAt.None? then EmailNotVerified
      else if r.sessionId in db.sessions || HasToken(db.sessions, r.sessionToken) then ServerError
      else LoggedIn
  }

  /** A password is evaluated and found wrong: the account exists and is not locked out. */
  predicate IsWrongPassword(db: Db, r: Request, u: UserId) {
    && r.LoginRequest? && !r.ipBlocked && r.user == Some(u) && u in db.users
    && !IsLockedOut(db.users[u], r.checkedAt) && r.password != db.users[u].password
  }

  predicate IsLogin(db: Db, r: Request, u: UserId) {
    r.LoginRequest? && r.user == Some(u) && LoginOutcome(db, r).LoggedIn?
  }

  /** A mailed token that is accepted: known, not used, not past its time, for an existing account. */
  predicate IsRedeemable(db: Db, tokens: map<Secret, Mailed>, token: Secret, now: int) {
    && token in tokens && !tokens[token].used && tokens[token].expiresAt >= now && tokens[token].user in db.users
  }

  predicate IsVerification(db: Db, r: Request) {
    r.VerifyRequest? && IsRedeemable(db, db.verifications, r.token, r.at)
  }

  predicate IsReset(db: Db, r: Request) {
    r.ResetRequest? && r.matching && r.strong && IsRedeemable(db, db.resets, r.token, r.at)
  }

  /** What one request leaves committed. */
  function Apply(db: Db, r: Request): Db {
    match r
    case LoginRequest(_, user, password, _, _, evaluatedAt, sessionId, sessionToken) =>
      if user.Some? && IsWrongPassword(db, r, user.value) then
        db.(users := db.users[user.value := AfterFailure(db.users[user.value], evaluatedAt)])
      else if LoginOutcome(db, r).LoggedIn? then
        db.(users := db.users[user.value := db.users[user.value].(failed := 0, lockedUntil := None)],
            sessions := db.sessions[sessionId := Row(user, sessionToken)])
      else db
    case RegisterRequest(u, password, token, at) =>
      if u in db.users || token in db.verifications then db
      else db.(users := db.users[u := User(Pending, password, 0, None, None)],
               verifications := db.verifications[token := Mailed(u, at + VERIFICATION_TOKEN_TTL, false)])
    case ResendRequest(u, token, at) =>
      if u !in db.users || db.users[u].verifiedAt.Some? || token in db.verifications then db
      else db.(verifications := db.verifications[token := Mailed(u, at + VERIFICATION_TOKEN_TTL, false)])
    case ForgotRequest(user, token, at) =>
      if user.None? || user.value !in db.users || token in db.resets then db
      else db.(resets := db.resets[token := Mailed(user.value, at + RESET_TOKEN_TTL, false)])
    case VerifyRequest(token, at) =>
      if !IsVerification(db, r) then db
      else
        var u := db.verifications[token].user;
        db.(verifications := db.verifications[token := db.verifications[token].(used := true)],
            users := db.users[u := db.users[u].(status := Active, verifiedAt := Some(at))])
    case ResetRequest(_, _, token, password, at) =>
      if !IsReset(db, r) then db
      else
        var u := db.resets[token].user;
        db.(resets := db.resets[token := db.resets[token].(used := true)],
            users := db.users[u := db.users[u].(password := password, failed := 0, lockedUntil := None)],
            sessions := RemoveRows(db.sessions, Doomed(db.sessions, u, None)))
    case LogoutRequest(t) =>
      db.(sessions := RemoveRows(db.sessions, set id | id in db.sessions && db.sessions[id].token == t))
    case StatusRequest(u, action, admin) =>
      if u !in db.users || admin == Some(u) then db
      else db.(users := db.users[u := db.users[u].(status := NewStatus(action))])
    case ConfirmRequest(u, at) =>
      if u !in db.users then db
      else
        var status := if db.users[u].status.Pending? then Active else db.users[u].status;
        db.(users := db.users[u := db.users[u].(status := status, verifiedAt := Some(at))])
  }

  // ----- the service, on a working copy

  class AuthService {
    var committed: Db
    var working: Db

    constructor ()
      ensures committed == working == EMPTY
    {
      committed, working := EMPTY, EMPTY;
    }

    method Commit()
      modifies this
      ensures committed == working == old(working)
    {
      committed := working;
    }

    method Rollback()
      modifies this
      ensures committed == working == old(committed)
    {
      working := committed;
    }

    /** The body of a login: a wrong password is committed at once, a reset counter only by the caller. */
    method Login(r: Request) returns (result: LoginResult)
      requires r.LoginRequest? && working == committed
      modifies this
      ensures result == LoginOutcome(old(committed), r)
      ensures committed == if result.LoggedIn? then old(committed) else Apply(old(committed), r)
      ensures result.LoggedIn? ==> working == Apply(old(committed), r)
    {
      if r.ipBlocked {
        return RateLimited;
      }
      if r.user.None? || r.user.value !in working.users {
        Commit();
        return InvalidCredentials;
      }
      var u := r.user.value;
      var user := working.users[u];
      if IsLockedOut(user, r.checkedAt) {
        Commit();
        return InvalidCredentials;
      }
      if r.password != user.password {
        user := user.(failed := user.failed + 1);
        var duration := BruteForceDuration(user.failed);
        if duration.Some? {
          user := user.(lockedUntil := Some(r.evaluatedAt + duration.value));
        }
        working := working.(users := working.users[u := user]);
        Commit();
        return InvalidCredentials;
      }
      working := working.(users := working.users[u := user.(failed := 0, lockedUntil := None)]);
      if r.verificationRequired && user.verifiedAt.None? {
        return EmailNotVerified;
      }
      if r.sessionId in working.sessions || HasToken(working.sessions, r.sessionToken) {
        return ServerError;
      }
      working := working.(sessions := working.sessions[r.sessionId := Row(r.user, r.sessionToken)]);
      result := LoggedIn;
    }

    method VerifyEmail(r: Request) returns (accepted: bool)
      requires r.VerifyRequest? && working == committed
      modifies this
      ensures accepted == IsVerification(old(committed), r) && committed == old(committed)
      ensures accepted ==> working == Apply(old(committed), r)
    {
      if r.token !in working.verifications || working.verifications[r.token].used {
        return false;
      }
      var mailed := working.verifications[r.token];
      if mailed.expiresAt < r.at {
        return false;
      }
      working := working.(verifications := working.verifications[r.token := mailed.(used := true)]);
      if mailed.user !in working.users {
        return false;
      }
      var user := working.users[mailed.user];
      working := working.(users := working.users[mailed.user := user.(status := Active, verifiedAt := Some(r.at))]);
      accepted := true;
    }

    method ResetPassword(r: Request) returns (accepted: bool)
      requires r.ResetRequest? && working == committed
      modifies this
      ensures accepted == IsReset(old(committed), r) && committed == old(committed)
      ensures accepted ==> working == Apply(old(committed), r)
    {
      if !r.matching || !r.strong {
        return false;
      }
      if r.token !in working.resets || working.resets[r.token].used {
        return false;
      }
      var mailed := working.resets[r.token];
      if mailed.expiresAt < r.at {
        return false;
      }
      working := working.(resets := working.resets[r.token := mailed.(used := true)]);
      if mailed.user !in working.users {
        return false;
      }
      var user := working.users[mailed.user].(password := r.newPassword, failed := 0, lockedUntil := None);
      working := working.(users := working.users[mailed.user := user]);
      working := working.(sessions := RemoveRows(working.sessions, Doomed(working.sessions, mailed.user, None)));
      accepted := true;
    }

    method Register(r: Request) returns (ok: bool)
      requires r.RegisterRequest? && working == committed
      modifies this
      ensures committed == Apply(old(committed), r)
      ensures ok ==> working == committed
    {
      if r.newUser in working.users {
        Rollback();
        return true;
      }
      working := working.(users := working.users[r.newUser := User(Pending, r.newPassword, 0, None, None)]);
      if r.mailToken in working.verifications {
        return false;
      }
      working := working.(verifications :=
        working.verifications[r.mailToken := Mailed(r.newUser, r.at + VERIFICATION_TOKEN_TTL, false)]);
      Commit();
      ok := true;
    }

    /** An administrator changes the status of an account, never of the own one. */
    method ChangeStatus(u: UserId, action: Action, admin: Option<UserId>) returns (ok: bool)
      requires working == committed
      modifies this
      ensures committed == Apply(old(committed), StatusRequest(u, action, admin)) && (ok ==> working == committed)
    {
      if u !in working.users || admin == Some(u) {
        return false;
      }
      var status := if action.Block? then Blocked else if action.Lock? then Locked else Active;
      working := working.(users := working.users[u := working.users[u].(status := status)]);
      Commit();
      ok := true;
    }

    /** An administrator confirms the address of mail; a pending account becomes active. */
    method Confirm(u: UserId, at: int) returns (ok: bool)
      requires working == committed
      modifies this
      ensures committed == Apply(old(committed), ConfirmRequest(u, at)) && (ok ==> working == committed)
    {
      if u !in working.users {
        return false;
      }
      var user := working.users[u].(verifiedAt := Some(at));
      if user.status.Pending? {
        user := user.(status := Active);
      }
      working := working.(users := working.users[u := user]);
      Commit();
      ok := true;
    }

    /** A request in its transaction: failures are raised, so that what was not committed is rolled back. */
    method Handle(r: Request)
      requires working == committed
      modifies this
      ensures committed == working == Apply(old(committed), r)
    {
      var ok := true;
      match r {
        case LoginRequest(_, _, _, _, _, _, _, _) =>
          var result := Login(r);
          ok := result.LoggedIn?;
        case RegisterRequest(_, _, _, _) =>
          ok := Register(r);
        case ResendRequest(u, token, at) =>
          if u in working.users && working.users[u].verifiedAt.None? && token !in working.verifications {
            working := working.(verifications :=
              working.verifications[token := Mailed(u, at + VERIFICATION_TOKEN_TTL, false)]);
          }
        case ForgotRequest(user, token, at) =>
          if user.Some? && user.value in working.users && token !in working.resets {
            working := working.(resets := working.resets[token := Mailed(user.value, at + RESET_TOKEN_TTL, false)]);
          }
        case VerifyRequest(_, _) =>
          ok := VerifyEmail(r);
        case ResetRequest(_, _, _, _, _) =>
          ok := ResetPassword(r);
        case LogoutRequest(t) =>
          var ended := set id | id in working.sessions && working.sessions[id].token == t;
          working := working.(sessions := RemoveRows(working.sessions, ended));
        case StatusRequest(u, action, admin) =>
          ok := ChangeStatus(u, action, admin);
        case ConfirmRequest(u, at) =>
          ok := Confirm(u, at);
      }
      if ok {
        Commit();
      } else {
        Rollback();
      }
    }
  }

  // ----- runs

  /** The committed database after the first `n` requests. */
  function DbAt(requests: seq<Request>, n: nat): Db
    requires n <= |requests|
  {
    if n == 0 then EMPTY else Apply(DbAt(requests, n - 1), requests[n - 1])
  }

  /** When wrong passwords for `u` were evaluated since the last committed reset of the counter. */
  function WrongTimes(requests: seq<Request>, n: nat, u: UserId): seq<int>
    requires n <= |requests|
  {
    if n == 0 then []
    else
      var before, db, r := WrongTimes(requests, n - 1, u), DbAt(requests, n - 1), requests[n - 1];
      if IsWrongPassword(db, r, u) then before + [r.evaluatedAt]
      else if IsLogin(db, r, u) || (IsReset(db, r) && db.resets[r.token].user == u) then []
      else before
  }

  /** Requests come one after another: the clock readings of logins never go back. */
  ghost predicate InOrder(requests: seq<Request>) {
    && (forall i :: 0 <= i < |requests| && requests[i].LoginRequest? ==>
        requests[i].checkedAt <= requests[i].evaluatedAt)
    && (forall i, j :: 0 <= i < j < |requests| && requests[i].LoginRequest? && requests[j].LoginRequest? ==>
          requests[i].evaluatedAt <= requests[j].checkedAt)
  }

  /** The account as its history of wrong passwords makes it. */
  ghost predicate MatchesHistory(user: User, times: seq<int>) {
    && user.failed == |times|
    && user.lockedUntil == if |times| >= 5 then Some(times[|times| - 1] + 5 * MINUTE) else None
  }

  lemma {:induction false} ApplyOtherUser(db: Db, r: Request, u: UserId)
    requires u in db.users && !IsWrongPassword(db, r, u) && !IsLogin(db, r, u)
    requires !(IsReset(db, r) && db.resets[r.token].user == u)
    ensures u in Apply(db, r).users
    ensures Apply(db, r).users[u].failed == db.users[u].failed
              && Apply(db, r).users[u].lockedUntil == db.users[u].lockedUntil
  {
  }

  /** The committed counter is the number of wrong passwords since its last committed reset, and the lock
      is set by the last of them. */
  lemma {:induction false} CounterIsHistory(requests: seq<Request>, n: nat, u: UserId)
    requires n <= |requests|
    ensures u in DbAt(requests, n).users ==> MatchesHistory(DbAt(requests, n).users[u], WrongTimes(requests, n, u))
    ensures u !in DbAt(requests, n).users ==> WrongTimes(requests, n, u) == []
    decreases n
  {
    if n != 0 {
      CounterIsHistory(requests, n - 1, u);
      CounterStep(DbAt(requests, n - 1), requests[n - 1], u, WrongTimes(requests, n - 1, u));
    }
  }

  lemma {:induction false} CounterStep(db: Db, r: Request, u: UserId, before: seq<int>)
    requires if u in db.users then MatchesHistory(db.users[u], before) else before == []
    ensures var after := if IsWrongPassword(db, r, u) then before + [r.evaluatedAt]
                         else if IsLogin(db, r, u) || (IsReset(db, r) && db.resets[r.token].user == u) then []
                         else before;
            if u in Apply(db, r).users then MatchesHistory(Apply(db, r).users[u], after) else after == []
  {
    if u in db.users && !IsWrongPassword(db, r, u) && !IsLogin(db, r, u)
       && !(IsReset(db, r) && db.resets[r.token].user == u) {
      ApplyOtherUser(db, r, u);
    }
  }

  /** Every wrong evaluation happened during a login request already handled. */
  lemma {:induction false} WrongTimesArePast(requests: seq<Request>, n: nat, u: UserId, i: nat)
    requires n < |requests| && InOrder(requests) && requests[n].LoginRequest?
    requires i < |WrongTimes(requests, n, u)|
    ensures WrongTimes(requests, n, u)[i] <= requests[n].checkedAt
  {
    var k := LastWrong(requests, n, u, i);
    assert requests[k].evaluatedAt <= requests[n].checkedAt;
  }

  lemma {:induction false} LastWrong(requests: seq<Request>, n: nat, u: UserId, i: nat) returns (k: nat)
    requires n <= |requests| && i < |WrongTimes(requests, n, u)|
    ensures k < n && requests[k].LoginRequest? && requests[k].evaluatedAt == WrongTimes(requests, n, u)[i]
  {
    var before := WrongTimes(requests, n - 1, u);
    if IsWrongPassword(DbAt(requests, n - 1), requests[n - 1], u) && i == |before| {
      k := n - 1;
    } else {
      k := LastWrong(requests, n - 1, u, i);
    }
  }

  /** Wrong evaluations come in order, and from the fifth on at least five minutes apart. */
  lemma {:induction false} WrongTimesAreSpaced(requests: seq<Request>, n: nat, u: UserId, i: nat)
    requires n <= |requests| && InOrder(requests)
    requires 0 < i < |WrongTimes(requests, n, u)|
    ensures var times := WrongTimes(requests, n, u); times[i] >= times[i - 1] + if i >= 5 then 5 * MINUTE else 0
  {
    var before, db, r := WrongTimes(requests, n - 1, u), DbAt(requests, n - 1), requests[n - 1];
    if i < |before| {
      WrongTimesAreSpaced(requests, n - 1, u, i);
    } else {
      CounterIsHistory(requests, n - 1, u);
      WrongTimesArePast(requests, n - 1, u, i - 1);
    }
  }

  /** More than five wrong passwords without a reset take five minutes for each one after the fifth. */
  lemma {:induction false} FailuresTakeTime(requests: seq<Request>, n: nat, u: UserId, i: nat)
    requires n <= |requests| && InOrder(requests)
    requires i < |WrongTimes(requests, n, u)|
    ensures var times := WrongTimes(requests, n, u);
            times[i] - times[0] >= if i >= 5 then (i - 4) * 5 * MINUTE else 0
  {
    if i > 0 {
      FailuresTakeTime(requests, n, u, i - 1);
      WrongTimesAreSpaced(requests, n, u, i);
    }
  }

  /** The bound on whole bursts: k failures span at least 5 (k - 5) minutes. */
  lemma {:induction false} LockoutSlowsGuessing(requests: seq<Request>, u: UserId)
    requires InOrder(requests)
    ensures var times := WrongTimes(requests, |requests|, u); var k := |times|;
            k > 5 ==> times[k - 1] - times[0] >= (k - 5) * 300 * 1_000_000
  {
    var times := WrongTimes(requests, |requests|, u);
    if |times| > 5 {
      FailuresTakeTime(requests, |requests|, u, |times| - 1);
    }
  }

  // ----- one-time tokens

  /** A token as it may be found later: same account and expiry, and used if it was. */
  ghost predicate KeptIn(before: map<Secret, Mailed>, after: map<Secret, Mailed>, token: Secret) {
    token in before ==>
      && token in after && after[token].user == before[token].user && after[token].expiresAt == before[token].expiresAt
      && (before[token].used ==> after[token].used)
  }

  lemma {:induction false} ApplyKeepsTokens(db: Db, r: Request, token: Secret)
    ensures KeptIn(db.verifications, Apply(db, r).verifications, token)
    ensures KeptIn(db.resets, Apply(db, r).resets, token)
  {
  }

  /** No later request removes a token, moves its expiry, hands it to another account or makes a used
      one usable again. */
  lemma {:induction false} TokensAreKept(requests: seq<Request>, m: nat, n: nat, token: Secret)
    requires m <= n <= |requests|
    ensures KeptIn(DbAt(requests, m).verifications, DbAt(requests, n).verifications, token)
    ensures KeptIn(DbAt(requests, m).resets, DbAt(requests, n).resets, token)
  {
    if m < n {
      TokensAreKept(requests, m, n - 1, token);
      ApplyKeepsTokens(DbAt(requests, n - 1), requests[n - 1], token);
    }
  }

  /** In any run a verification token and a reset token are each accepted at most once. */
  lemma {:induction false} TokensWorkOnce(requests: seq<Request>, i: nat, j: nat)
    requires i < j < |requests|
    ensures IsVerification(DbAt(requests, i), requests[i]) && IsVerification(DbAt(requests, j), requests[j]) ==>
              requests[i].token != requests[j].token
    ensures IsReset(DbAt(requests, i), requests[i]) && IsReset(DbAt(requests, j), requests[j]) ==>
              requests[i].token != requests[j].token
  {
    if requests[i].VerifyRequest? || requests[i].ResetRequest? {
      TokensAreKept(requests, i + 1, j, requests[i].token);
    }
  }

  lemma {:induction false} ApplyKeepsAccount(db: Db, r: Request, u: UserId)
    requires u in db.users
    ensures u in Apply(db, r).users
  {
  }

  lemma {:induction false} AccountsAreKept(requests: seq<Request>, m: nat, n: nat, u: UserId)
    requires m <= n <= |requests| && u in DbAt(requests, m).users
    ensures u in DbAt(requests, n).users
  {
    if m < n {
      AccountsAreKept(requests, m, n - 1, u);
      ApplyKeepsAccount(DbAt(requests, n - 1), requests[n - 1], u);
    }
  }

  /** The i-th request mails this reset token, for an account that exists. */
  ghost predicate IssuesReset(requests: seq<Request>, i: nat, token: Secret)
    requires i < |requests|
  {
    && requests[i].ForgotRequest? && requests[i].mailToken == token && token !in DbAt(requests, i).resets
    && requests[i].user.Some? && requests[i].user.value in DbAt(requests, i).users
  }

  ghost predicate RedeemsReset(requests: seq<Request>, k: nat, token: Secret)
    requires k < |requests|
  {
    IsReset(DbAt(requests, k), requests[k]) && requests[k].token == token
  }

  /** Every reset token known was mailed by an earlier request, to this account and for one hour. */
  lemma {:induction false} ResetWasIssued(requests: seq<Request>, n: nat, token: Secret) returns (i: nat)
    requires n <= |requests| && token in DbAt(requests, n).resets
    ensures i < n && IssuesReset(requests, i, token)
    ensures requests[i].user == Some(DbAt(requests, n).resets[token].user)
    ensures DbAt(requests, n).resets[token].expiresAt == requests[i].at + 3600 * 1_000_000
  {
    if token in DbAt(requests, n - 1).resets {
      i := ResetWasIssued(requests, n - 1, token);
      ApplyKeepsTokens(DbAt(requests, n - 1), requests[n - 1], token);
    } else {
      i := n - 1;
    }
  }

  /** A used one was accepted by an earlier request. */
  lemma {:induction false} ResetWasRedeemed(requests: seq<Request>, n: nat, token: Secret) returns (k: nat)
    requires n <= |requests| && token in DbAt(requests, n).resets && DbAt(requests, n).resets[token].used
    ensures k < n && RedeemsReset(requests, k, token)
    decreases n
  {
    if RedeemsReset(requests, n - 1, token) {
      k := n - 1;
    } else {
      NewlyUsed(DbAt(requests, n - 1), requests[n - 1], token);
      k := ResetWasRedeemed(requests, n - 1, token);
    }
  }

  /** A password reset is accepted if and only if the passwords will do, its token was mailed by an earlier
      request for an existing account, no more than an hour before, and no request has used it since. */
  lemma {:induction false} ResetAcceptedExactly(requests: seq<Request>, j: nat)
    requires j < |requests| && requests[j].ResetRequest?
    ensures IsReset(DbAt(requests, j), requests[j])
       <==> && requests[j].matching && requests[j].strong
            && (exists i :: 0 <= i < j && IssuesReset(requests, i, requests[j].token)
                            && requests[j].at <= requests[i].at + 3600 * 1_000_000)
            && (forall k :: 0 <= k < j ==> !RedeemsReset(requests, k, requests[j].token))
  {
    var token := requests[j].token;
    if IsReset(DbAt(requests, j), requests[j]) {
      var i := ResetWasIssued(requests, j, token);
      forall k | 0 <= k < j
        ensures !RedeemsReset(requests, k, token)
      {
        TokensWorkOnce(requests, k, j);
      }
    }
    if i :| 0 <= i < j && IssuesReset(requests, i, token) && requests[j].at <= requests[i].at + RESET_TOKEN_TTL {
      TokensAreKept(requests, i + 1, j, token);
      AccountsAreKept(requests, i, j, requests[i].user.value);
      if DbAt(requests, j).resets[token].used {
        var k := ResetWasRedeemed(requests, j, token);
      }
    }
  }

  /** The i-th request mails this verification token: a registration, or another mail for an account not
      yet verified. */
  ghost predicate IssuesVerification(requests: seq<Request>, i: nat, token: Secret)
    requires i < |requests|
  {
    var r, db := requests[i], DbAt(requests, i);
    && token !in db.verifications
    && ((r.RegisterRequest? && r.mailToken == token && r.newUser !in db.users)
        || (r.ResendRequest? && r.mailToken == token && r.who in db.users && db.users[r.who].verifiedAt.None?))
  }

  ghost predicate RedeemsVerification(requests: seq<Request>, k: nat, token: Secret)
    requires k < |requests|
  {
    IsVerification(DbAt(requests, k), requests[k]) && requests[k].token == token
  }

  function Recipient(r: Request): UserId
    requires r.RegisterRequest? || r.ResendRequest?
  {
    if r.RegisterRequest? then r.newUser else r.who
  }

  /** Every verification token known was mailed by an earlier request, to this account and for a day. */
  lemma {:induction false} VerificationWasIssued(requests: seq<Request>, n: nat, token: Secret) returns (i: nat)
    requires n <= |requests| && token in DbAt(requests, n).verifications
    ensures i < n && IssuesVerification(requests, i, token)
    ensures Recipient(requests[i]) == DbAt(requests, n).verifications[token].user
    ensures DbAt(requests, n).verifications[token].expiresAt == requests[i].at + 24 * 3600 * 1_000_000
    decreases n
  {
    if token in DbAt(requests, n - 1).verifications {
      i := VerificationWasIssued(requests, n - 1, token);
      ApplyKeepsTokens(DbAt(requests, n - 1), requests[n - 1], token);
    } else {
      i := n - 1;
      NewVerification(DbAt(requests, i), requests[i], token);
    }
  }

  lemma {:induction false} NewVerification(db: Db, r: Request, token: Secret)
    requires token !in db.verifications && token in Apply(db, r).verifications
    ensures (r.RegisterRequest? && r.newUser !in db.users)
            || (r.ResendRequest? && r.who in db.users && db.users[r.who].verifiedAt.None?)
    ensures r.mailToken == token
    ensures Apply(db, r).verifications[token] == Mailed(Recipient(r), r.at + VERIFICATION_TOKEN_TTL, false)
  {
  }

  lemma {:induction false} NewlyUsed(db: Db, r: Request, token: Secret)
    ensures token in Apply(db, r).verifications && Apply(db, r).verifications[token].used ==>
              || (IsVerification(db, r) && r.token == token)
              || (token in db.verifications && db.verifications[token].used)
    ensures token in Apply(db, r).resets && Apply(db, r).resets[token].used ==>
              || (IsReset(db, r) && r.token == token)
              || (token in db.resets && db.resets[token].used)
  {
  }

  lemma {:induction false} VerificationWasRedeemed(requests: seq<Request>, n: nat, token: Secret) returns (k: nat)
    requires n <= |requests| && token in DbAt(requests, n).verifications && DbAt(requests, n).verifications[token].used
    ensures k < n && RedeemsVerification(requests, k, token)
    decreases n
  {
    if RedeemsVerification(requests, n - 1, token) {
      k := n - 1;
    } else {
      NewlyUsed(DbAt(requests, n - 1), requests[n - 1], token);
      k := VerificationWasRedeemed(requests, n - 1, token);
    }
  }

  /** The same for the verification of an address of mail, within a day of a registration or of a
      repeated mail. */
  lemma {:induction false} VerificationAcceptedExactly(requests: seq<Request>, j: nat)
    requires j < |requests| && requests[j].VerifyRequest?
    ensures IsVerification(DbAt(requests, j), requests[j])
       <==> && (exists i :: 0 <= i < j && IssuesVerification(requests, i, requests[j].token)
                            && requests[j].at <= requests[i].at + 24 * 3600 * 1_000_000)
            && (forall k :: 0 <= k < j ==> !RedeemsVerification(requests, k, requests[j].token))
  {
    var token := requests[j].token;
    if IsVerification(DbAt(requests, j), requests[j]) {
      var i := VerificationWasIssued(requests, j, token);
      forall k | 0 <= k < j
        ensures !RedeemsVerification(requests, k, token)
      {
        TokensWorkOnce(requests, k, j);
      }
    }
    if i :| 0 <= i < j && IssuesVerification(requests, i, token)
            && requests[j].at <= requests[i].at + VERIFICATION_TOKEN_TTL {
      IssuedIsKept(requests, i, j, token);
      if DbAt(requests, j).verifications[token].used {
        var k := VerificationWasRedeemed(requests, j, token);
      }
    }
  }

  lemma {:induction false} IssuedIsKept(requests: seq<Request>, i: nat, j: nat, token: Secret)
    requires i < j <= |requests| && IssuesVerification(requests, i, token)
    ensures token in DbAt(requests, j).verifications
    ensures DbAt(requests, j).verifications[token].user == Recipient(requests[i])
    ensures DbAt(requests, j).verifications[token].expiresAt == requests[i].at + VERIFICATION_TOKEN_TTL
    ensures Recipient(requests[i]) in DbAt(requests, j).users
  {
    TokensAreKept(requests, i + 1, j, token);
    AccountsAreKept(requests, i + 1, j, Recipient(requests[i]));
  }

  // ----- what a reset and a verification are for

  /** The k-th request resets the password of this account. */
  ghost predicate ResetsAccount(requests: seq<Request>, k: nat, u: UserId)
    requires k < |requests|
  {
    IsReset(DbAt(requests, k), requests[k]) && DbAt(requests, k).resets[requests[k].token].user == u
  }

  ghost predicate LogsIn(requests: seq<Request>, k: nat, u: UserId)
    requires k < |requests|
  {
    IsLogin(DbAt(requests, k), requests[k], u)
  }

  /** After a reset the account has no session until somebody logs in to it again. */
  lemma {:induction false} ResetEndsSessions(requests: seq<Request>, i: nat, n: nat, u: UserId)
    requires i < n <= |requests| && ResetsAccount(requests, i, u)
    requires forall k :: i < k < n ==> !LogsIn(requests, k, u)
    ensures forall id :: id in DbAt(requests, n).sessions ==> DbAt(requests, n).sessions[id].user != Some(u)
    decreases n
  {
    var db, r := DbAt(requests, n - 1), requests[n - 1];
    if i + 1 < n {
      ResetEndsSessions(requests, i, n - 1, u);
      assert !LogsIn(requests, n - 1, u);
      ApplySessions(db, r, u);
    }
  }

  /** A session of an account comes from before or from a login to it. */
  lemma {:induction false} ApplySessions(db: Db, r: Request, u: UserId)
    ensures forall id :: id in Apply(db, r).sessions && Apply(db, r).sessions[id].user == Some(u) ==>
              IsLogin(db, r, u) || (id in db.sessions && db.sessions[id].user == Some(u))
  {
  }

  lemma {:induction false} ApplyPassword(db: Db, r: Request, u: UserId)
    requires u in db.users && !(IsReset(db, r) && db.resets[r.token].user == u)
    ensures u in Apply(db, r).users && Apply(db, r).users[u].password == db.users[u].password
  {
  }

  lemma {:induction false} ResetSetsPassword(requests: seq<Request>, i: nat, n: nat, u: UserId)
    requires i < n <= |requests| && ResetsAccount(requests, i, u)
    requires forall k :: i < k < n ==> !ResetsAccount(requests, k, u)
    ensures u in DbAt(requests, n).users && DbAt(requests, n).users[u].password == requests[i].newPassword
    decreases n
  {
    if i + 1 < n {
      ResetSetsPassword(requests, i, n - 1, u);
      assert !ResetsAccount(requests, n - 1, u);
      ApplyPassword(DbAt(requests, n - 1), requests[n - 1], u);
    }
  }

  /** Any session found later was opened with the new password, or after another reset. */
  lemma {:induction false} SessionsNeedNewPassword(requests: seq<Request>, i: nat, n: nat, u: UserId, id: nat)
    requires i < n <= |requests| && ResetsAccount(requests, i, u)
    requires forall k :: i < k < n ==> !ResetsAccount(requests, k, u)
    requires id in DbAt(requests, n).sessions && DbAt(requests, n).sessions[id].user == Some(u)
    ensures exists k :: i < k < n && LogsIn(requests, k, u) && requests[k].password == requests[i].newPassword
  {
    if forall k :: i < k < n ==> !LogsIn(requests, k, u) {
      ResetEndsSessions(requests, i, n, u);
    } else {
      var k :| i < k < n && LogsIn(requests, k, u);
      ResetSetsPassword(requests, i, k, u);
    }
  }

  /** The k-th request verifies this account: a token accepted for it, or an administrator. */
  ghost predicate VerifiesAccount(requests: seq<Request>, k: nat, u: UserId)
    requires k < |requests|
  {
    Verifies(DbAt(requests, k), requests[k], u)
  }

  ghost predicate Verifies(db: Db, r: Request, u: UserId) {
    || (IsVerification(db, r) && db.verifications[r.token].user == u)
    || (r.ConfirmRequest? && r.account == u && u in db.users)
  }

  lemma {:induction false} ApplyVerified(db: Db, r: Request, u: UserId)
    requires u in Apply(db, r).users
    ensures Apply(db, r).users[u].verifiedAt.Some?
       <==> u in db.users && (db.users[u].verifiedAt.Some? || Verifies(db, r, u))
  {
  }

  /** An account counts as verified, for good, exactly from the first token accepted for it, or from the
      confirmation by an administrator. */
  lemma {:induction false} VerifiedExactly(requests: seq<Request>, n: nat, u: UserId)
    requires n <= |requests| && u in DbAt(requests, n).users
    ensures DbAt(requests, n).users[u].verifiedAt.Some? <==> exists k :: 0 <= k < n && VerifiesAccount(requests, k, u)
  {
    ApplyVerified(DbAt(requests, n - 1), requests[n - 1], u);
    if u in DbAt(requests, n - 1).users {
      VerifiedExactly(requests, n - 1, u);
      if VerifiesAccount(requests, n - 1, u) {
        assert DbAt(requests, n).users[u].verifiedAt.Some?;
      }
    } else {
      forall k | 0 <= k < n
        ensures !VerifiesAccount(requests, k, u)
      {
        if VerifiesAccount(requests, k, u) {
          AccountsAreKept(requests, k, n - 1, u);
        }
      }
    }
  }
}
