/** When a login succeeds, told from the requests before it alone: which accounts exist, are shut, are
    verified, and what their passwords are. */
module AuthHistory {
  import opened Common
  import opened SessionStore
  import opened SessionService
  import opened AuthService

  // ----- accounts

  /** The j-th request registers this account, unless it exists already. */
  ghost predicate Registers(requests: seq<Request>, j: nat, u: UserId)
    requires j < |requests|
  {
    var r := requests[j];
    r.RegisterRequest? && r.newUser == u && r.mailToken !in DbAt(requests, j).verifications
  }

  ghost predicate IsRegistered(requests: seq<Request>, n: nat, u: UserId)
    requires n <= |requests|
  {
    exists j :: 0 <= j < n && Registers(requests, j, u)
  }

  lemma {:induction false} RegisteredExactly(requests: seq<Request>, n: nat, u: UserId)
    requires n <= |requests|
    ensures u in DbAt(requests, n).users <==> IsRegistered(requests, n, u)
    decreases n
  {
    if n != 0 {
      RegisteredExactly(requests, n - 1, u);
      NewAccount(DbAt(requests, n - 1), requests[n - 1], u);
      if Registers(requests, n - 1, u) {
        assert IsRegistered(requests, n, u);
      } else if IsRegistered(requests, n, u) {
        var j :| 0 <= j < n && Registers(requests, j, u);
        assert IsRegistered(requests, n - 1, u);
      }
    }
  }

  lemma {:induction false} NewAccount(db: Db, r: Request, u: UserId)
    ensures u in Apply(db, r).users
       <==> u in db.users || (r.RegisterRequest? && r.newUser == u && r.mailToken !in db.verifications)
  {
  }

  // ----- status

  /** An administrator, not the owner of the account, blocks or locks it. */
  ghost predicate Shuts(requests: seq<Request>, j: nat, u: UserId)
    requires j < |requests|
  {
    ShutsNow(requests[j], u) && IsRegistered(requests, j, u)
  }

  /** An administrator opens it again, or a verification token is accepted for it. */
  ghost predicate Opens(requests: seq<Request>, k: nat, u: UserId)
    requires k < |requests|
  {
    OpensNow(DbAt(requests, k), requests[k], u)
  }

  predicate OpensNow(db: Db, r: Request, u: UserId) {
    || (r.StatusRequest? && r.account == u && r.admin != Some(u) && (r.action == Unblock || r.action == Unlock))
    || (IsVerification(db, r) && db.verifications[r.token].user == u)
  }

  predicate ShutsNow(r: Request, u: UserId) {
    r.StatusRequest? && r.account == u && r.admin != Some(u) && (r.action == Block || r.action == Lock)
  }

  ghost predicate ShutSince(requests: seq<Request>, j: nat, n: nat, u: UserId)
    requires j < n <= |requests|
  {
    Shuts(requests, j, u) && forall k :: j < k < n ==> !Opens(requests, k, u)
  }

  ghost predicate IsShut(requests: seq<Request>, n: nat, u: UserId)
    requires n <= |requests|
  {
    exists j :: 0 <= j < n && ShutSince(requests, j, n, u)
  }

  predicate HasShutStatus(db: Db, u: UserId) {
    u in db.users && (db.users[u].status == Blocked || db.users[u].status == Locked)
  }

  /** An account is blocked or locked exactly when an administrator has made it so and nothing since has opened it. */
  lemma {:induction false} ShutExactly(requests: seq<Request>, n: nat, u: UserId)
    requires n <= |requests|
    ensures HasShutStatus(DbAt(requests, n), u) <==> IsShut(requests, n, u)
    decreases n
  {
    if n != 0 {
      ShutExactly(requests, n - 1, u);
      RegisteredExactly(requests, n - 1, u);
      BothSteps(requests, n - 1, u);
    }
  }

  lemma {:induction false} StatusStep(requests: seq<Request>, n: nat, u: UserId)
    requires n < |requests| && (u in DbAt(requests, n).users <==> IsRegistered(requests, n, u))
    ensures HasShutStatus(DbAt(requests, n + 1), u)
       <==> Shuts(requests, n, u) || (HasShutStatus(DbAt(requests, n), u) && !Opens(requests, n, u))
  {
    ApplyStatus(DbAt(requests, n), requests[n], u);
  }

  lemma {:induction false} ApplyStatus(db: Db, r: Request, u: UserId)
    ensures HasShutStatus(Apply(db, r), u)
       <==> (u in db.users && ShutsNow(r, u)) || (HasShutStatus(db, u) && !OpensNow(db, r, u))
  {
  }

  lemma {:induction false} BothSteps(requests: seq<Request>, n: nat, u: UserId)
    requires n < |requests| && (u in DbAt(requests, n).users <==> IsRegistered(requests, n, u))
    requires HasShutStatus(DbAt(requests, n), u) <==> IsShut(requests, n, u)
    ensures HasShutStatus(DbAt(requests, n + 1), u) <==> IsShut(requests, n + 1, u)
  {
    StatusStep(requests, n, u);
    ShutStep(requests, n, u);
  }

  lemma {:induction false} ShutStep(requests: seq<Request>, n: nat, u: UserId)
    requires n < |requests|
    ensures IsShut(requests, n + 1, u)
       <==> Shuts(requests, n, u) || (IsShut(requests, n, u) && !Opens(requests, n, u))
  {
    if Shuts(requests, n, u) {
      assert ShutSince(requests, n, n + 1, u);
    } else if IsShut(requests, n, u) && !Opens(requests, n, u) {
      var j :| 0 <= j < n && ShutSince(requests, j, n, u);
      assert ShutSince(requests, j, n + 1, u);
    }
    if IsShut(requests, n + 1, u) && !Shuts(requests, n, u) {
      var j :| 0 <= j < n + 1 && ShutSince(requests, j, n + 1, u);
      assert ShutSince(requests, j, n, u);
    }
  }

  /** The k-th request changes the status of an account, for the same or another one. */
  ghost predicate Alters(requests: seq<Request>, k: nat, u: UserId)
    requires k < |requests|
  {
    AltersNow(DbAt(requests, k), requests[k], u)
  }

  predicate AltersNow(db: Db, r: Request, u: UserId) {
    && u in db.users
    && ((r.StatusRequest? && r.account == u && r.admin != Some(u))
        || (r.ConfirmRequest? && r.account == u)
        || (IsVerification(db, r) && db.verifications[r.token].user == u))
  }

  ghost predicate NeverAltered(requests: seq<Request>, n: nat, u: UserId)
    requires n <= |requests|
  {
    forall k :: 0 <= k < n ==> !Alters(requests, k, u)
  }

  predicate IsPending(db: Db, u: UserId) {
    u in db.users && db.users[u].status == Pending
  }

  /** An account is pending exactly from its registration to its first verification or change by an administrator. */
  lemma {:induction false} PendingExactly(requests: seq<Request>, n: nat, u: UserId)
    requires n <= |requests|
    ensures IsPending(DbAt(requests, n), u) <==> IsRegistered(requests, n, u) && NeverAltered(requests, n, u)
    decreases n
  {
    if n != 0 {
      PendingExactly(requests, n - 1, u);
      RegisteredExactly(requests, n - 1, u);
      RegisteredExactly(requests, n, u);
      ApplyPending(DbAt(requests, n - 1), requests[n - 1], u);
      AlteredStep(requests, n - 1, u);
    }
  }

  lemma {:induction false} AlteredStep(requests: seq<Request>, n: nat, u: UserId)
    requires n < |requests|
    ensures NeverAltered(requests, n + 1, u) <==> NeverAltered(requests, n, u) && !Alters(requests, n, u)
    ensures u !in DbAt(requests, n).users ==> NeverAltered(requests, n, u)
  {
    if u !in DbAt(requests, n).users {
      forall k | 0 <= k < n
        ensures !Alters(requests, k, u)
      {
        if Alters(requests, k, u) {
          AccountsAreKept(requests, k, n, u);
        }
      }
    }
  }

  lemma {:induction false} ApplyPending(db: Db, r: Request, u: UserId)
    ensures IsPending(Apply(db, r), u)
       <==> u in Apply(db, r).users && !AltersNow(db, r, u) && (u in db.users ==> IsPending(db, u))
  {
  }

  /** The k-th request is the last to verify this account. */
  ghost predicate IsLastVerifying(requests: seq<Request>, n: nat, u: UserId, k: nat)
    requires n <= |requests|
  {
    k < n && VerifiesAccount(requests, k, u) && forall j :: k < j < n ==> !VerifiesAccount(requests, j, u)
  }

  /** The date of the verification is that of the last one. */
  lemma {:induction false} VerifiedWhen(requests: seq<Request>, n: nat, u: UserId, k: nat)
    requires n <= |requests| && IsLastVerifying(requests, n, u, k)
    ensures u in DbAt(requests, n).users && DbAt(requests, n).users[u].verifiedAt == Some(requests[k].at)
    decreases n
  {
    if k < n - 1 {
      VerifiedWhen(requests, n - 1, u, k);
      assert !VerifiesAccount(requests, n - 1, u);
    }
    ApplyDate(DbAt(requests, n - 1), requests[n - 1], u);
  }

  lemma {:induction false} ApplyDate(db: Db, r: Request, u: UserId)
    requires u in db.users
    ensures u in Apply(db, r).users
    ensures Verifies(db, r, u) ==> Apply(db, r).users[u].verifiedAt == Some(r.at)
    ensures !Verifies(db, r, u) ==> Apply(db, r).users[u].verifiedAt == db.users[u].verifiedAt
  {
  }

  // ----- passwords

  /** The j-th request gives the account this password: an accepted reset, or its registration. */
  ghost predicate SetsPassword(requests: seq<Request>, j: nat, u: UserId, p: Secret)
    requires j < |requests|
  {
    || (ResetsAccount(requests, j, u) && requests[j].newPassword == p)
    || (Registers(requests, j, u) && !IsRegistered(requests, j, u) && requests[j].newPassword == p)
  }

  ghost predicate PasswordSince(requests: seq<Request>, j: nat, n: nat, u: UserId, p: Secret)
    requires j < n <= |requests|
  {
    SetsPassword(requests, j, u, p) && forall k :: j < k < n ==> !ResetsAccount(requests, k, u)
  }

  /** It is the password of the last accepted reset, or of the registration when there was none. */
  ghost predicate HasPassword(requests: seq<Request>, n: nat, u: UserId, p: Secret)
    requires n <= |requests|
  {
    exists j :: 0 <= j < n && PasswordSince(requests, j, n, u, p)
  }

  predicate HasStored(db: Db, u: UserId, p: Secret) {
    u in db.users && db.users[u].password == p
  }

  lemma {:induction false} PasswordExactly(requests: seq<Request>, n: nat, u: UserId, p: Secret)
    requires n <= |requests|
    ensures HasStored(DbAt(requests, n), u, p) <==> HasPassword(requests, n, u, p)
    decreases n
  {
    if n != 0 {
      PasswordExactly(requests, n - 1, u, p);
      RegisteredExactly(requests, n - 1, u);
      StoredStep(requests, n - 1, u, p);
      PasswordStep(requests, n - 1, u, p);
    }
  }

  lemma {:induction false} StoredStep(requests: seq<Request>, n: nat, u: UserId, p: Secret)
    requires n < |requests| && (u in DbAt(requests, n).users <==> IsRegistered(requests, n, u))
    ensures HasStored(DbAt(requests, n + 1), u, p)
       <==> SetsPassword(requests, n, u, p) || (HasStored(DbAt(requests, n), u, p) && !ResetsAccount(requests, n, u))
  {
    ApplyStored(DbAt(requests, n), requests[n], u, p);
  }

  lemma {:induction false} ApplyStored(db: Db, r: Request, u: UserId, p: Secret)
    ensures var resets := IsReset(db, r) && db.resets[r.token].user == u;
            HasStored(Apply(db, r), u, p)
            <==> || (resets && r.newPassword == p)
                 || (u !in db.users && r.RegisterRequest? && r.newUser == u && r.mailToken !in db.verifications
                     && r.newPassword == p)
                 || (HasStored(db, u, p) && !resets)
  {
  }

  lemma {:induction false} PasswordStep(requests: seq<Request>, n: nat, u: UserId, p: Secret)
    requires n < |requests|
    ensures HasPassword(requests, n + 1, u, p)
       <==> SetsPassword(requests, n, u, p) || (HasPassword(requests, n, u, p) && !ResetsAccount(requests, n, u))
  {
    if SetsPassword(requests, n, u, p) {
      assert PasswordSince(requests, n, n + 1, u, p);
    } else if HasPassword(requests, n, u, p) && !ResetsAccount(requests, n, u) {
      var j :| 0 <= j < n && PasswordSince(requests, j, n, u, p);
      assert PasswordSince(requests, j, n + 1, u, p);
    }
    if HasPassword(requests, n + 1, u, p) && !SetsPassword(requests, n, u, p) {
      var j :| 0 <= j < n + 1 && PasswordSince(requests, j, n + 1, u, p);
      assert PasswordSince(requests, j, n, u, p);
    }
  }

  // ----- logins

  ghost predicate IsVerified(requests: seq<Request>, n: nat, u: UserId)
    requires n <= |requests|
  {
    exists k :: 0 <= k < n && VerifiesAccount(requests, k, u)
  }

  /** Five wrong passwords or more, the last of them less than five minutes ago. */
  predicate IsBarred(failures: seq<int>, now: int) {
    |failures| >= 5 && failures[|failures| - 1] + 5 * 60_000_000 > now
  }

  /** A login for this account that gets as far as the password. */
  ghost predicate Tries(requests: seq<Request>, i: nat, u: UserId, failures: seq<int>)
    requires i < |requests|
  {
    var r := requests[i];
    && r.LoginRequest? && !r.ipBlocked && r.user == Some(u)
    && IsRegistered(requests, i, u) && !IsShut(requests, i, u) && !IsBarred(failures, r.checkedAt)
  }

  /** A login for this account that succeeds. */
  ghost predicate Enters(requests: seq<Request>, i: nat, u: UserId, failures: seq<int>)
    requires i < |requests|
  {
    var r, sessions := requests[i], DbAt(requests, i).sessions;
    && Tries(requests, i, u, failures) && HasPassword(requests, i, u, r.password)
    && (r.verificationRequired ==> IsVerified(requests, i, u))
    && r.sessionId !in sessions && forall id :: id in sessions ==> sessions[id].token != r.sessionToken
  }

  /** When wrong passwords were tried since the last successful login or reset. */
  ghost function Failures(requests: seq<Request>, n: nat, u: UserId): seq<int>
    requires n <= |requests|
  {
    if n == 0 then []
    else
      var before, r := Failures(requests, n - 1, u), requests[n - 1];
      if Tries(requests, n - 1, u, before) && !HasPassword(requests, n - 1, u, r.password) then before + [r.evaluatedAt]
      else if Enters(requests, n - 1, u, before) || ResetsAccount(requests, n - 1, u) then []
      else before
  }

  /** What a login answers, by what went before. */
  ghost predicate IsAnswer(requests: seq<Request>, i: nat, result: LoginResult)
    requires i < |requests| && requests[i].LoginRequest?
  {
    var r := requests[i];
    if r.ipBlocked then result == RateLimited
    else if r.user == None then result == InvalidCredentials
    else
      var u, failures := r.user.value, Failures(requests, i, r.user.value);
      if !Tries(requests, i, u, failures) || !HasPassword(requests, i, u, r.password) then result == InvalidCredentials
      else if r.verificationRequired && !IsVerified(requests, i, u) then result == EmailNotVerified
      else result == if Enters(requests, i, u, failures) then LoggedIn else ServerError
  }

  /** The stored account against its history. */
  ghost predicate Reflects(requests: seq<Request>, n: nat, u: UserId)
    requires n <= |requests|
  {
    Failures(requests, n, u) == WrongTimes(requests, n, u)
  }

  lemma {:induction false} TriesExactly(requests: seq<Request>, i: nat, u: UserId)
    requires i < |requests| && Reflects(requests, i, u) && requests[i].LoginRequest? && requests[i].user == Some(u)
    ensures var r, db := requests[i], DbAt(requests, i);
            Tries(requests, i, u, Failures(requests, i, u))
            <==> !r.ipBlocked && u in db.users && !IsLockedOut(db.users[u], r.checkedAt)
  {
    CounterIsHistory(requests, i, u);
    RegisteredExactly(requests, i, u);
    ShutExactly(requests, i, u);
  }

  lemma {:induction false} EntersExactly(requests: seq<Request>, i: nat, u: UserId)
    requires i < |requests| && Reflects(requests, i, u) && requests[i].LoginRequest? && requests[i].user == Some(u)
    ensures IsAnswer(requests, i, LoginOutcome(DbAt(requests, i), requests[i]))
    ensures Enters(requests, i, u, Failures(requests, i, u)) <==> IsLogin(DbAt(requests, i), requests[i], u)
    ensures Tries(requests, i, u, Failures(requests, i, u)) && !HasPassword(requests, i, u, requests[i].password)
       <==> IsWrongPassword(DbAt(requests, i), requests[i], u)
  {
    TriesExactly(requests, i, u);
    RegisteredExactly(requests, i, u);
    PasswordExactly(requests, i, u, requests[i].password);
    if u in DbAt(requests, i).users {
      VerifiedExactly(requests, i, u);
    }
  }

  /** So the wrong passwords that lock an account are those of the history. */
  lemma {:induction false} FailuresExactly(requests: seq<Request>, n: nat, u: UserId)
    requires n <= |requests|
    ensures Reflects(requests, n, u)
    decreases n
  {
    if n != 0 {
      FailuresExactly(requests, n - 1, u);
      var r := requests[n - 1];
      if r.LoginRequest? && r.user == Some(u) {
        EntersExactly(requests, n - 1, u);
      }
    }
  }

  /** In every run every login is answered as its history says; it succeeds exactly when the address is not
      barred, the account was registered, is not shut by an administrator and not barred by wrong passwords,
      the password is its own, it was verified if that is required, and identifier and token are new. */
  lemma {:induction false} LoginAnsweredExactly(requests: seq<Request>, i: nat)
    requires i < |requests| && requests[i].LoginRequest?
    ensures IsAnswer(requests, i, LoginOutcome(DbAt(requests, i), requests[i]))
    ensures var r, before := requests[i], DbAt(requests, i).sessions;
            DbAt(requests, i + 1).sessions
              == if r.user.Some? && Enters(requests, i, r.user.value, Failures(requests, i, r.user.value))
                 then before[r.sessionId := Row(r.user, r.sessionToken)] else before
  {
    if requests[i].user.Some? {
      FailuresExactly(requests, i, requests[i].user.value);
      EntersExactly(requests, i, requests[i].user.value);
    }
  }

  // ----- session rows

  /** The i-th request is a successful login of this user, under this identifier and token. */
  ghost predicate OpensSession(requests: seq<Request>, i: nat, id: nat, u: UserId, t: Token)
    requires i < |requests|
  {
    var r := requests[i];
    r.LoginRequest? && r.sessionId == id && r.sessionToken == t && Enters(requests, i, u, Failures(requests, i, u))
  }

  /** A reset of the account ends its sessions, a logout those of its token. */
  ghost predicate EndsSession(requests: seq<Request>, k: nat, u: UserId, t: Token)
    requires k < |requests|
  {
    ResetsAccount(requests, k, u) || requests[k] == LogoutRequest(t)
  }

  ghost predicate SessionSince(requests: seq<Request>, i: nat, n: nat, id: nat, u: UserId, t: Token)
    requires i < n <= |requests|
  {
    OpensSession(requests, i, id, u, t) && forall k :: i < k < n ==> !EndsSession(requests, k, u, t)
  }

  predicate HasSession(db: Db, id: nat, u: UserId, t: Token) {
    id in db.sessions && db.sessions[id] == Row(Some(u), t)
  }

  ghost predicate IsOpen(requests: seq<Request>, n: nat, id: nat, u: UserId, t: Token)
    requires n <= |requests|
  {
    exists i :: 0 <= i < n && SessionSince(requests, i, n, id, u, t)
  }

  /** In every run the session rows are those opened by successful logins and not ended since. */
  lemma {:induction false} SessionsExactly(requests: seq<Request>, n: nat, id: nat, u: UserId, t: Token)
    requires n <= |requests|
    ensures HasSession(DbAt(requests, n), id, u, t) <==> IsOpen(requests, n, id, u, t)
    decreases n
  {
    if n != 0 {
      SessionsExactly(requests, n - 1, id, u, t);
      NextSession(requests, n - 1, id, u, t);
    }
  }

  lemma {:induction false} NextSession(requests: seq<Request>, n: nat, id: nat, u: UserId, t: Token)
    requires n < |requests| && (HasSession(DbAt(requests, n), id, u, t) <==> IsOpen(requests, n, id, u, t))
    ensures HasSession(DbAt(requests, n + 1), id, u, t) <==> IsOpen(requests, n + 1, id, u, t)
  {
    SessionStep(requests, n, id, u, t);
    OpenStep(requests, n, id, u, t);
  }

  lemma {:induction false} OpenStep(requests: seq<Request>, n: nat, id: nat, u: UserId, t: Token)
    requires n < |requests|
    ensures IsOpen(requests, n + 1, id, u, t)
       <==> OpensSession(requests, n, id, u, t) || (IsOpen(requests, n, id, u, t) && !EndsSession(requests, n, u, t))
  {
    if OpensSession(requests, n, id, u, t) {
      assert SessionSince(requests, n, n + 1, id, u, t);
    } else {
      StaysOpen(requests, n, id, u, t);
    }
  }

  lemma {:induction false} StaysOpen(requests: seq<Request>, n: nat, id: nat, u: UserId, t: Token)
    requires n < |requests| && !OpensSession(requests, n, id, u, t)
    ensures IsOpen(requests, n + 1, id, u, t) <==> IsOpen(requests, n, id, u, t) && !EndsSession(requests, n, u, t)
  {
    if IsOpen(requests, n, id, u, t) && !EndsSession(requests, n, u, t) {
      var i :| 0 <= i < n && SessionSince(requests, i, n, id, u, t);
      assert SessionSince(requests, i, n + 1, id, u, t);
    }
    if IsOpen(requests, n + 1, id, u, t) {
      var i :| 0 <= i < n + 1 && SessionSince(requests, i, n + 1, id, u, t);
      assert i != n && SessionSince(requests, i, n, id, u, t);
    }
  }

  lemma {:induction false} SessionStep(requests: seq<Request>, n: nat, id: nat, u: UserId, t: Token)
    requires n < |requests|
    ensures HasSession(DbAt(requests, n + 1), id, u, t)
       <==> || OpensSession(requests, n, id, u, t)
            || (HasSession(DbAt(requests, n), id, u, t) && !EndsSession(requests, n, u, t))
  {
    ApplySession(DbAt(requests, n), requests[n], id, u, t);
    if requests[n].LoginRequest? && requests[n].user == Some(u) {
      FailuresExactly(requests, n, u);
      EntersExactly(requests, n, u);
    }
  }

  lemma {:induction false} ApplySession(db: Db, r: Request, id: nat, u: UserId, t: Token)
    ensures HasSession(Apply(db, r), id, u, t)
       <==> || (IsLogin(db, r, u) && r.sessionId == id && r.sessionToken == t)
            || (HasSession(db, id, u, t) && r != LogoutRequest(t) && !(IsReset(db, r) && db.resets[r.token].user == u))
  {
  }
}
