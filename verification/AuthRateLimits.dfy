/** The counters of the authentication endpoints: one log per key, pruned by the window of whichever
    limit the key is used with. */
module AuthRateLimits {
  import opened RateLimitStore
  import opened RateLimitRuns
  import opened RateLimitPruning
  import opened RateLimitForgetting

  datatype AuthLimit = AuthLimit(max: nat, window: nat)

  const LOGIN := AuthLimit(10, 60)
  const REGISTER := AuthLimit(3, 3600)
  const RESET := AuthLimit(3, 86400)
  const RESEND := AuthLimit(5, 86400)

  /** One use of a key under a limit, at the time of the check. */
  datatype AuthUse = AuthUse(key: string, limit: AuthLimit, at: real) {
    function Cutoff(): real { at - limit.window as real }
  }

  /** One check and, when it passes, one record. */
  ghost predicate AuthStep(counters: Store, u: AuthUse, counters': Store, allowed: bool) {
    var kept := After(LogIn(counters, u.key), u.Cutoff());
    && (allowed <==> |kept| < u.limit.max)
    && LogIn(counters', u.key) == (if allowed then kept + [u.at] else kept)
    && forall k :: k != u.key ==> LogIn(counters', k) == LogIn(counters, k)
  }

  class AuthCounters {
    var counters: Store

    constructor ()
      ensures counters == map[]
    {
      counters := map[];
    }

    method Prune(key: string, window: nat, now: real)
      modifies this
      ensures counters == old(counters)[key := After(LogIn(old(counters), key), now - window as real)]
    {
      counters := counters[key := After(LogIn(counters, key), now - window as real)];
    }

    method Check(key: string, limit: AuthLimit, now: real) returns (allowed: bool)
      modifies this
      ensures counters == old(counters)[key := After(LogIn(old(counters), key), now - limit.window as real)]
      ensures allowed <==> |counters[key]| < limit.max
    {
      Prune(key, limit.window, now);
      allowed := |counters[key]| < limit.max;
    }

    method Record(key: string, now: real)
      modifies this
      ensures counters == old(counters)[key := LogIn(old(counters), key) + [now]]
    {
      counters := counters[key := LogIn(counters, key) + [now]];
    }

    method Enforce(key: string, limit: AuthLimit, now: real) returns (allowed: bool)
      modifies this
      ensures AuthStep(old(counters), AuthUse(key, limit, now), counters, allowed)
    {
      allowed := Check(key, limit, now);
      if allowed {
        Record(key, now);
      }
    }
  }

  // ----- runs

  /** A run of uses from empty counters, under a clock that does not go back and positive windows. */
  ghost predicate AuthRun(stores: seq<Store>, uses: seq<AuthUse>, answers: seq<bool>) {
    && |stores| == |uses| + 1 && |answers| == |uses| && stores[0] == map[]
    && (forall i :: 0 <= i < |uses| ==> AuthStep(stores[i], uses[i], stores[i + 1], answers[i]))
    && (forall i, j :: 0 <= i < j < |uses| ==> uses[i].at <= uses[j].at)
    && (forall i {:trigger uses[i]} :: 0 <= i < |uses| ==> uses[i].limit.window > 0)
  }

  /** The times at which the first `n` uses passed, for one key. */
  function Passed(uses: seq<AuthUse>, answers: seq<bool>, key: string, n: nat): seq<real>
    requires |answers| == |uses| && n <= |uses|
  {
    if n == 0 then []
    else
      var past := Passed(uses, answers, key, n - 1);
      if uses[n - 1].key == key && answers[n - 1] then past + [uses[n - 1].at] else past
  }

  /** The same for one key and one limit. */
  function PassedWith(uses: seq<AuthUse>, answers: seq<bool>, key: string, limit: AuthLimit, n: nat): seq<real>
    requires |answers| == |uses| && n <= |uses|
  {
    if n == 0 then []
    else
      var past := PassedWith(uses, answers, key, limit, n - 1);
      if uses[n - 1].key == key && uses[n - 1].limit == limit && answers[n - 1] then past + [uses[n - 1].at] else past
  }

  /** The latest of `floor` and the cutoffs that the first `n` uses applied to a key. */
  function Reached(uses: seq<AuthUse>, key: string, n: nat, floor: real): real
    requires n <= |uses|
  {
    if n == 0 then floor
    else
      var before := Reached(uses, key, n - 1, floor);
      if uses[n - 1].key == key then Later(before, uses[n - 1].Cutoff()) else before
  }

  lemma {:induction false} ReachedAtMost(uses: seq<AuthUse>, key: string, n: nat, floor: real, c: real)
    requires n <= |uses|
    ensures Reached(uses, key, n, floor) >= floor
    ensures Reached(uses, key, n, floor) <= c
       <==> floor <= c && forall j {:trigger uses[j]} :: 0 <= j < n && uses[j].key == key ==> uses[j].Cutoff() <= c
  {
    if n != 0 {
      ReachedAtMost(uses, key, n - 1, floor, c);
    }
  }

  /** No cutoff lies in the future, but a floor may. */
  lemma {:induction false} ReachedBefore(uses: seq<AuthUse>, key: string, n: nat, floor: real, t: real)
    requires n <= |uses| && forall j {:trigger uses[j]} :: 0 <= j < n ==> uses[j].Cutoff() < t
    ensures Reached(uses, key, n, floor) < t <==> floor < t
  {
    if n != 0 {
      ReachedBefore(uses, key, n - 1, floor, t);
    }
  }

  lemma {:induction false} RaisedFloor(uses: seq<AuthUse>, key: string, n: nat, a: real, b: real)
    requires n <= |uses|
    ensures Reached(uses, key, n, Later(b, a)) == Later(Reached(uses, key, n, a), b)
  {
    if n != 0 {
      RaisedFloor(uses, key, n - 1, a, b);
    }
  }

  lemma {:induction false} ClockIsAhead(stores: seq<Store>, uses: seq<AuthUse>, answers: seq<bool>, n: nat)
    requires AuthRun(stores, uses, answers) && 0 < n <= |uses|
    ensures forall j {:trigger uses[j]} :: 0 <= j < n ==> uses[j].Cutoff() < uses[n - 1].at
  {
    forall j {:trigger uses[j]} | 0 <= j < n
      ensures uses[j].Cutoff() < uses[n - 1].at
    {
      assert uses[j].limit.window > 0 && (j == n - 1 || uses[j].at <= uses[n - 1].at);
    }
  }

  /** The log of a key, seen from a cutoff, is what passed after the latest cutoff applied so far. */
  lemma {:induction false} LogIsPassed(stores: seq<Store>, uses: seq<AuthUse>, answers: seq<bool>, key: string, n: nat,
                                       c: real)
    requires AuthRun(stores, uses, answers) && n <= |uses|
    ensures After(LogIn(stores[n], key), c) == After(Passed(uses, answers, key, n), Reached(uses, key, n, c))
    decreases n
  {
    if n != 0 {
      assert AuthStep(stores[n - 1], uses[n - 1], stores[n], answers[n - 1]);
      if uses[n - 1].key == key {
        LogIsPassed(stores, uses, answers, key, n - 1, Later(uses[n - 1].Cutoff(), c));
        LogIsPassedStep(stores, uses, answers, key, n - 1, c);
      } else {
        LogIsPassed(stores, uses, answers, key, n - 1, c);
      }
    }
  }

  lemma {:induction false} LogIsPassedStep(stores: seq<Store>, uses: seq<AuthUse>, answers: seq<bool>, key: string,
                                           n: nat, c: real)
    requires AuthRun(stores, uses, answers) && n < |uses| && uses[n].key == key
    requires var floor := Later(uses[n].Cutoff(), c);
             After(LogIn(stores[n], key), floor) == After(Passed(uses, answers, key, n), Reached(uses, key, n, floor))
    ensures After(LogIn(stores[n + 1], key), c)
              == After(Passed(uses, answers, key, n + 1), Reached(uses, key, n + 1, c))
  {
    var u := uses[n];
    assert AuthStep(stores[n], u, stores[n + 1], answers[n]);
    RaisedFloor(uses, key, n, c, u.Cutoff());
    ClockIsAhead(stores, uses, answers, n + 1);
    ReachedBefore(uses, key, n + 1, c, u.at);
    UseOfLog(LogIn(stores[n], key), u, answers[n], Passed(uses, answers, key, n), c, Reached(uses, key, n + 1, c));
  }

  lemma {:induction false} UseOfLog(log: seq<real>, u: AuthUse, allowed: bool, past: seq<real>, c: real, reached: real)
    requires After(log, Later(u.Cutoff(), c)) == After(past, reached) && (reached < u.at <==> c < u.at)
    ensures var kept := After(log, u.Cutoff());
            After(if allowed then kept + [u.at] else kept, c) == After(if allowed then past + [u.at] else past, reached)
  {
    AfterTwice(log, u.Cutoff(), c);
    AfterSnoc(After(log, u.Cutoff()), u.at, c);
    AfterSnoc(past, u.at, reached);
  }

  // ----- exactly what is let through

  /** In every run, whatever limits share a key, a use passes if and only if fewer than its maximum passed
      in its window, not counting those that an earlier use of the key under a shorter window has pruned:
      the ones up to the latest cutoff applied so far. */
  lemma {:induction false} AuthAnswerIsExact(stores: seq<Store>, uses: seq<AuthUse>, answers: seq<bool>, i: nat)
    requires AuthRun(stores, uses, answers) && i < |uses|
    ensures var passed, c := Passed(uses, answers, uses[i].key, i), uses[i].Cutoff();
            answers[i] <==>
              |After(passed, c)| - CountIn(passed, c, Reached(uses, uses[i].key, i, c)) < uses[i].limit.max
  {
    var key, c := uses[i].key, uses[i].Cutoff();
    assert AuthStep(stores[i], uses[i], stores[i + 1], answers[i]);
    LogIsPassed(stores, uses, answers, key, i, c);
    ReachedAtMost(uses, key, i, c, c);
    RaisedCutoff(Passed(uses, answers, key, i), c, Reached(uses, key, i, c));
  }

  // ----- exactly when a limit holds

  /** No interval as long as the window holds more uses that passed under this key and limit than its maximum. */
  ghost predicate LimitHolds(uses: seq<AuthUse>, answers: seq<bool>, key: string, limit: AuthLimit)
    requires |answers| == |uses|
  {
    forall lo, hi :: hi - lo == limit.window as real ==>
      CountIn(PassedWith(uses, answers, key, limit, |uses|), lo, hi) <= limit.max
  }

  /** The i-th use finds its limit reached by uses of its own kind, and still fewer entries than the maximum
      in the log, because an earlier use of the key has pruned some. */
  ghost predicate Oversteps(uses: seq<AuthUse>, answers: seq<bool>, i: nat)
    requires |answers| == |uses| && i < |uses|
  {
    var u := uses[i];
    var passed := Passed(uses, answers, u.key, i);
    && |After(PassedWith(uses, answers, u.key, u.limit, i), u.Cutoff())| >= u.limit.max
    && |After(passed, u.Cutoff())| - CountIn(passed, u.Cutoff(), Reached(uses, u.key, i, u.Cutoff())) < u.limit.max
  }

  ghost predicate NoneOversteps(uses: seq<AuthUse>, answers: seq<bool>, key: string, limit: AuthLimit)
    requires |answers| == |uses|
  {
    forall i :: 0 <= i < |uses| && uses[i].key == key && uses[i].limit == limit ==> !Oversteps(uses, answers, i)
  }

  /** In every run, whatever limits share the key: a limit is kept in all intervals as long as its window if
      and only if no use under it oversteps. */
  lemma {:induction false} LimitHoldsExactly(stores: seq<Store>, uses: seq<AuthUse>, answers: seq<bool>, key: string,
                                             limit: AuthLimit)
    requires AuthRun(stores, uses, answers)
    ensures LimitHolds(uses, answers, key, limit) <==> NoneOversteps(uses, answers, key, limit)
  {
    if NoneOversteps(uses, answers, key, limit) {
      forall lo, hi | hi - lo == limit.window as real
        ensures CountIn(PassedWith(uses, answers, key, limit, |uses|), lo, hi) <= limit.max
      {
        HoldsUnlessOverstepped(stores, uses, answers, key, limit, |uses|, lo, hi);
      }
    }
    if i :| 0 <= i < |uses| && uses[i].key == key && uses[i].limit == limit && Oversteps(uses, answers, i) {
      OversteppingExceeds(stores, uses, answers, i);
      assert uses[i].at - uses[i].Cutoff() == limit.window as real;
    }
  }

  lemma {:induction false} HoldsUnlessOverstepped(stores: seq<Store>, uses: seq<AuthUse>, answers: seq<bool>,
                                                  key: string, limit: AuthLimit, n: nat, lo: real, hi: real)
    requires AuthRun(stores, uses, answers) && n <= |uses| && NoneOversteps(uses, answers, key, limit)
    requires hi - lo == limit.window as real
    ensures CountIn(PassedWith(uses, answers, key, limit, n), lo, hi) <= limit.max
    decreases n
  {
    if n != 0 {
      HoldsUnlessOverstepped(stores, uses, answers, key, limit, n - 1, lo, hi);
      if uses[n - 1].key == key && uses[n - 1].limit == limit && answers[n - 1] {
        AuthAnswerIsExact(stores, uses, answers, n - 1);
        assert !Oversteps(uses, answers, n - 1);
        assert uses[n - 1].Cutoff() == uses[n - 1].at - (hi - lo);
        WindowStep(PassedWith(uses, answers, key, limit, n - 1), uses[n - 1].at, lo, hi, limit.max);
      }
    }
  }

  /** The window that ends at an overstepping use holds one use too many. */
  lemma {:induction false} OversteppingExceeds(stores: seq<Store>, uses: seq<AuthUse>, answers: seq<bool>, i: nat)
    requires AuthRun(stores, uses, answers) && i < |uses| && Oversteps(uses, answers, i)
    ensures CountIn(PassedWith(uses, answers, uses[i].key, uses[i].limit, |uses|), uses[i].Cutoff(), uses[i].at)
              > uses[i].limit.max
  {
    var u := uses[i];
    var before := PassedWith(uses, answers, u.key, u.limit, i);
    AuthAnswerIsExact(stores, uses, answers, i);
    NothingAhead(stores, uses, answers, u.key, u.limit, i, u.at);
    AllInWindow(before, u.Cutoff(), u.at);
    CountInSnoc(before, u.at, u.Cutoff(), u.at);
    assert u.limit.window > 0;
    PassedWithGrows(uses, answers, u.key, u.limit, i + 1, |uses|, u.Cutoff(), u.at);
  }

  lemma {:induction false} NothingAhead(stores: seq<Store>, uses: seq<AuthUse>, answers: seq<bool>, key: string,
                                        limit: AuthLimit, n: nat, now: real)
    requires AuthRun(stores, uses, answers) && n <= |uses|
    requires forall j {:trigger uses[j]} :: 0 <= j < n ==> uses[j].at <= now
    ensures forall k :: 0 <= k < |PassedWith(uses, answers, key, limit, n)| ==>
              PassedWith(uses, answers, key, limit, n)[k] <= now
    decreases n
  {
    if n != 0 {
      NothingAhead(stores, uses, answers, key, limit, n - 1, now);
    }
  }

  lemma {:induction false} AllInWindow(log: seq<real>, lo: real, hi: real)
    requires forall k :: 0 <= k < |log| ==> log[k] <= hi
    ensures CountIn(log, lo, hi) == |After(log, lo)|
  {
    if log != [] {
      AllInWindow(log[..|log| - 1], lo, hi);
    }
  }

  lemma {:induction false} PassedWithGrows(uses: seq<AuthUse>, answers: seq<bool>, key: string, limit: AuthLimit,
                                           m: nat, n: nat, lo: real, hi: real)
    requires |answers| == |uses| && m <= n <= |uses|
    ensures CountIn(PassedWith(uses, answers, key, limit, m), lo, hi)
              <= CountIn(PassedWith(uses, answers, key, limit, n), lo, hi)
    decreases n
  {
    if m < n {
      PassedWithGrows(uses, answers, key, limit, m, n - 1, lo, hi);
      CountInSnoc(PassedWith(uses, answers, key, limit, n - 1), uses[n - 1].at, lo, hi);
    }
  }

  /** No use of the key runs under a shorter window than `limit`. */
  ghost predicate IsShortest(uses: seq<AuthUse>, key: string, limit: AuthLimit) {
    forall j {:trigger uses[j]} :: 0 <= j < |uses| && uses[j].key == key ==> uses[j].limit.window >= limit.window
  }

  lemma {:induction false} PassedWithIsPart(uses: seq<AuthUse>, answers: seq<bool>, key: string, limit: AuthLimit,
                                            n: nat, c: real)
    requires |answers| == |uses| && n <= |uses|
    ensures |After(PassedWith(uses, answers, key, limit, n), c)| <= |After(Passed(uses, answers, key, n), c)|
    decreases n
  {
    if n != 0 {
      PassedWithIsPart(uses, answers, key, limit, n - 1, c);
      OneMorePart(uses, answers, key, limit, n - 1, c);
    }
  }

  lemma {:induction false} OneMorePart(uses: seq<AuthUse>, answers: seq<bool>, key: string, limit: AuthLimit, n: nat,
                                       c: real)
    requires |answers| == |uses| && n < |uses|
    ensures |After(PassedWith(uses, answers, key, limit, n + 1), c)| - |After(PassedWith(uses, answers, key, limit, n),
        c)|
              <= |After(Passed(uses, answers, key, n + 1), c)| - |After(Passed(uses, answers, key, n), c)|
  {
    AfterSnoc(PassedWith(uses, answers, key, limit, n), uses[n].at, c);
    AfterSnoc(Passed(uses, answers, key, n), uses[n].at, c);
  }

  /** So a key used with one limit keeps it, and of several limits that share a key the one with the
      shortest window is kept. */
  lemma {:induction false} AuthLimitHolds(stores: seq<Store>, uses: seq<AuthUse>, answers: seq<bool>, key: string,
                                          limit: AuthLimit)
    requires AuthRun(stores, uses, answers) && IsShortest(uses, key, limit)
    ensures LimitHolds(uses, answers, key, limit)
  {
    forall i | 0 <= i < |uses| && uses[i].key == key && uses[i].limit == limit
      ensures !Oversteps(uses, answers, i)
    {
      var c := uses[i].Cutoff();
      assert forall j {:trigger uses[j]} :: 0 <= j < i ==> uses[j].at <= uses[i].at;
      ReachedAtMost(uses, key, i, c, c);
      EmptyInterval(Passed(uses, answers, key, i), c);
      PassedWithIsPart(uses, answers, key, limit, i, c);
    }
    LimitHoldsExactly(stores, uses, answers, key, limit);
  }

  // ----- the endpoints

  /** The requests that are limited: registration and login by address, resending a verification by
      user, requesting a reset by address of mail. */
  datatype Endpoint = Register(ip: string) | Login(ip: string) | Resend(userId: string) | RequestReset(email: string)
  {
    function Key(): string {
      match this
      case Register(ip) => "ip:" + ip
      case Login(ip) => "ip:" + ip
      case Resend(userId) => "user:" + userId
      case RequestReset(email) => "email:" + email
    }

    function Limit(): AuthLimit {
      match this
      case Register(_) => REGISTER
      case Login(_) => LOGIN
      case Resend(_) => RESEND
      case RequestReset(_) => RESET
    }
  }

  /** Only registration and login ever share a key. */
  lemma {:induction false} KeysShared(a: Endpoint, b: Endpoint)
    ensures a.Key() == b.Key() <==> a == b || (a.Register? && b == Login(a.ip)) || (a.Login? && b == Register(a.ip))
  {
    assert a.Key()[0] == b.Key()[0] || a.Key() != b.Key();
    assert "ip:"[0] == 'i' && "user:"[0] == 'u' && "email:"[0] == 'e';
    assert |"ip:"| == 3 && |"user:"| == 5 && |"email:"| == 6;
    if a.Key() == b.Key() {
      var n := if a.Register? || a.Login? then 3 else if a.Resend? then 5 else 6;
      assert a.Key()[n..] == b.Key()[n..];
    }
  }

  /** A run of requests to the endpoints. */
  ghost predicate EndpointRun(stores: seq<Store>, endpoints: seq<Endpoint>, uses: seq<AuthUse>, answers: seq<bool>) {
    && AuthRun(stores, uses, answers) && |endpoints| == |uses|
    && forall i {:trigger uses[i]} :: 0 <= i < |uses| ==>
         uses[i].key == endpoints[i].Key() && uses[i].limit == endpoints[i].Limit()
  }

  /** Logins, resent verifications and reset requests keep their limits in every run; only
      registrations need not. */
  lemma {:induction false} EndpointLimitsHold(stores: seq<Store>, endpoints: seq<Endpoint>, uses: seq<AuthUse>,
                                              answers: seq<bool>, e: Endpoint)
    requires EndpointRun(stores, endpoints, uses, answers) && !e.Register?
    ensures LimitHolds(uses, answers, e.Key(), e.Limit())
  {
    forall j {:trigger uses[j]} | 0 <= j < |uses| && uses[j].key == e.Key()
      ensures uses[j].limit.window >= e.Limit().window
    {
      KeysShared(endpoints[j], e);
    }
    AuthLimitHolds(stores, uses, answers, e.Key(), e.Limit());
  }

  /** For every endpoint, registration included: its limit holds in a run if and only if none of its requests
      oversteps. */
  lemma {:induction false} EndpointLimitHoldsExactly(stores: seq<Store>, endpoints: seq<Endpoint>, uses: seq<AuthUse>,
                                                     answers: seq<bool>, e: Endpoint)
    requires EndpointRun(stores, endpoints, uses, answers)
    ensures LimitHolds(uses, answers, e.Key(), e.Limit())
       <==> forall i :: 0 <= i < |uses| && endpoints[i] == e ==> !Oversteps(uses, answers, i)
  {
    LimitHoldsExactly(stores, uses, answers, e.Key(), e.Limit());
    forall i {:trigger uses[i]} | 0 <= i < |uses|
      ensures endpoints[i] == e <==> uses[i].key == e.Key() && uses[i].limit == e.Limit()
    {
      KeysShared(endpoints[i], e);
    }
  }

  /** Registrations do not: after three of them and a login attempt from the same address, all within two
      minutes, a fourth one passes.  The hourly limit counts the login as well, so it stands at four. */
  lemma {:induction false} SharedKeyForgets(ip: string)
      returns (stores: seq<Store>, endpoints: seq<Endpoint>, uses: seq<AuthUse>, answers: seq<bool>)
    ensures EndpointRun(stores, endpoints, uses, answers)
    ensures endpoints == [Register(ip), Register(ip), Register(ip), Login(ip), Register(ip)]
    ensures answers == [true, true, true, true, true] && uses[4].at == 101.0
    ensures CountIn(PassedWith(uses, answers, Register(ip).Key(), REGISTER, 5), 0.0 - 1.0, 3599.0) == 4 > REGISTER.max
    ensures !LimitHolds(uses, answers, Register(ip).Key(), REGISTER) && Oversteps(uses, answers, 4)
  {
    var key := Register(ip).Key();
    endpoints := [Register(ip), Register(ip), Register(ip), Login(ip), Register(ip)];
    stores, uses := FourRegistrations(key);
    answers := [true, true, true, true, true];
    CountsOfFour(uses, answers, key);
    FirstThreeFit(stores, uses, answers);
  }

  /** The first three registrations cannot overstep, so the fourth one must. */
  lemma {:induction false} FirstThreeFit(stores: seq<Store>, uses: seq<AuthUse>, answers: seq<bool>)
    requires AuthRun(stores, uses, answers) && |uses| == 5
    requires CountIn(PassedWith(uses, answers, uses[4].key, uses[4].limit, 5), 0.0 - 1.0, 3599.0) > 3
    requires uses[4].limit.max == 3
    requires uses[4].limit.window == 3600 && uses[3].limit != uses[4].limit
    ensures !LimitHolds(uses, answers, uses[4].key, uses[4].limit) && Oversteps(uses, answers, 4)
  {
    var lo, hi := 0.0 - 1.0, 3599.0;
    assert hi - lo == uses[4].limit.window as real;
    LimitHoldsExactly(stores, uses, answers, uses[4].key, uses[4].limit);
    var i :| 0 <= i < 5 && uses[i].key == uses[4].key && uses[i].limit == uses[4].limit && Oversteps(uses, answers, i);
    PassedWithSize(uses, answers, uses[4].key, uses[4].limit, i, uses[i].Cutoff());
  }

  lemma {:induction false} PassedWithSize(uses: seq<AuthUse>, answers: seq<bool>, key: string, limit: AuthLimit, n: nat,
                                          c: real)
    requires |answers| == |uses| && n <= |uses|
    ensures |After(PassedWith(uses, answers, key, limit, n), c)| <= n
    decreases n
  {
    if n != 0 {
      PassedWithSize(uses, answers, key, limit, n - 1, c);
      AfterSnoc(PassedWith(uses, answers, key, limit, n - 1), uses[n - 1].at, c);
    }
  }

  lemma {:induction false} FourRegistrations(key: string) returns (stores: seq<Store>, uses: seq<AuthUse>)
    ensures uses == [AuthUse(key, REGISTER, 0.0), AuthUse(key, REGISTER, 1.0), AuthUse(key, REGISTER, 2.0),
                     AuthUse(key, LOGIN, 100.0), AuthUse(key, REGISTER, 101.0)]
    ensures AuthRun(stores, uses, [true, true, true, true, true])
  {
    uses := [AuthUse(key, REGISTER, 0.0), AuthUse(key, REGISTER, 1.0), AuthUse(key, REGISTER, 2.0),
             AuthUse(key, LOGIN, 100.0), AuthUse(key, REGISTER, 101.0)];
    stores := [map[], map[key := [0.0]], map[key := [0.0, 1.0]], map[key := [0.0, 1.0, 2.0]], map[key := [100.0]],
               map[key := [100.0, 101.0]]];
    Pruned();
    StepOfOneKey(stores[0], uses[0], [], [0.0]);
    StepOfOneKey(stores[1], uses[1], [0.0], [0.0, 1.0]);
    StepOfOneKey(stores[2], uses[2], [0.0, 1.0], [0.0, 1.0, 2.0]);
    StepOfOneKey(stores[3], uses[3], [0.0, 1.0, 2.0], [100.0]);
    StepOfOneKey(stores[4], uses[4], [100.0], [100.0, 101.0]);
  }

  lemma {:induction false} StepOfOneKey(counters: Store, u: AuthUse, log: seq<real>, log': seq<real>)
    requires counters.Keys <= {u.key} && LogIn(counters, u.key) == log
    requires |After(log, u.Cutoff())| < u.limit.max && log' == After(log, u.Cutoff()) + [u.at]
    ensures AuthStep(counters, u, map[u.key := log'], true)
  {
  }

  lemma {:induction false} Pruned()
    ensures After([], 0.0 - 3600.0) == [] && After([0.0], 1.0 - 3600.0) == [0.0]
    ensures After([0.0, 1.0], 2.0 - 3600.0) == [0.0, 1.0]
    ensures After([0.0, 1.0, 2.0], 100.0 - 60.0) == [] && After([100.0], 101.0 - 3600.0) == [100.0]
  {
    AfterOne(0.0, 1.0 - 3600.0);
    AfterTwo(0.0, 1.0, 2.0 - 3600.0);
    AfterTwo(0.0, 1.0, 100.0 - 60.0);
    AfterSnoc([0.0, 1.0], 2.0, 100.0 - 60.0);
    assert [0.0, 1.0] + [2.0] == [0.0, 1.0, 2.0];
    AfterOne(100.0, 101.0 - 3600.0);
  }

  lemma {:induction false} CountsOfFour(uses: seq<AuthUse>, answers: seq<bool>, key: string)
    requires uses == [AuthUse(key, REGISTER, 0.0), AuthUse(key, REGISTER, 1.0), AuthUse(key, REGISTER, 2.0),
                      AuthUse(key, LOGIN, 100.0), AuthUse(key, REGISTER, 101.0)]
    requires answers == [true, true, true, true, true]
    ensures CountIn(PassedWith(uses, answers, key, REGISTER, 5), 0.0 - 1.0, 3599.0) == 4
  {
    var lo, hi := 0.0 - 1.0, 3599.0;
    var zero, one := PassedWith(uses, answers, key, REGISTER, 0), PassedWith(uses, answers, key, REGISTER, 1);
    var two, three := PassedWith(uses, answers, key, REGISTER, 2), PassedWith(uses, answers, key, REGISTER, 3);
    assert one == zero + [0.0] && two == one + [1.0] && three == two + [2.0];
    assert PassedWith(uses, answers, key, REGISTER, 4) == three;
    CountInSnoc(zero, 0.0, lo, hi);
    CountInSnoc(one, 1.0, lo, hi);
    CountInSnoc(two, 2.0, lo, hi);
    CountInSnoc(three, 101.0, lo, hi);
  }

  // ----- what the endpoints let through

  /** Two requests share a key: they are the same, or a registration and a login of one address. */
  predicate Share(a: Endpoint, b: Endpoint) {
    match a
    case Register(ip) => b == Register(ip) || b == Login(ip)
    case Login(ip) => b == Register(ip) || b == Login(ip)
    case Resend(_) => a == b
    case RequestReset(_) => a == b
  }

  /** How many requests of each kind are let through, and in how many seconds. */
  function Most(e: Endpoint): nat {
    match e
    case Register(_) => 3
    case Login(_) => 10
    case Resend(_) => 5
    case RequestReset(_) => 3
  }

  function Seconds(e: Endpoint): nat {
    match e
    case Register(_) => 3600
    case Login(_) => 60
    case Resend(_) => 24 * 3600
    case RequestReset(_) => 24 * 3600
  }

  /** The requests still counted for the i-th: those let through before under its key that were not too old
      for it, nor for any request under this key in between. */
  ghost function Counted(endpoints: seq<Endpoint>, uses: seq<AuthUse>, answers: seq<bool>, i: nat): set<nat>
    requires |endpoints| == |uses| == |answers| && i < |uses|
  {
    set j: nat | j < i && answers[j] && Share(endpoints[i], endpoints[j])
                 && forall k :: 0 <= k <= i && Share(endpoints[i], endpoints[k]) ==>
                      uses[j].at > uses[k].at - Seconds(endpoints[k]) as real
  }

  /** The uses of a key that passed later than a cutoff. */
  ghost function PassedAfter(uses: seq<AuthUse>, answers: seq<bool>, key: string, n: nat, c: real): set<nat>
    requires |answers| == |uses| && n <= |uses|
  {
    set j: nat | j < n && answers[j] && uses[j].key == key && uses[j].at > c
  }

  lemma {:induction false} PassedAfterCounts(uses: seq<AuthUse>, answers: seq<bool>, key: string, n: nat, c: real)
    requires |answers| == |uses| && n <= |uses|
    ensures |PassedAfter(uses, answers, key, n, c)| == |After(Passed(uses, answers, key, n), c)|
    decreases n
  {
    if n == 0 {
      assert PassedAfter(uses, answers, key, 0, c) == {};
    } else {
      PassedAfterCounts(uses, answers, key, n - 1, c);
      PassedAfterNext(uses, answers, key, n - 1, c);
      AfterSnoc(Passed(uses, answers, key, n - 1), uses[n - 1].at, c);
    }
  }

  lemma {:induction false} PassedAfterNext(uses: seq<AuthUse>, answers: seq<bool>, key: string, n: nat, c: real)
    requires |answers| == |uses| && n < |uses|
    ensures |PassedAfter(uses, answers, key, n + 1, c)|
              == |PassedAfter(uses, answers, key, n, c)| + if answers[n] && uses[n].key == key
                  && uses[n].at > c then 1 else 0
  {
    var one, two := PassedAfter(uses, answers, key, n, c), PassedAfter(uses, answers, key, n + 1, c);
    if n in two {
      assert two == one + {n};
    } else {
      assert two == one;
    }
  }

  lemma {:induction false} EndpointParts(endpoints: seq<Endpoint>, uses: seq<AuthUse>, stores: seq<Store>,
                                         answers: seq<bool>, i: nat, k: nat)
    requires EndpointRun(stores, endpoints, uses, answers) && i < |uses| && k < |uses|
    ensures uses[k].key == uses[i].key <==> Share(endpoints[i], endpoints[k])
    ensures uses[k].Cutoff() == uses[k].at - Seconds(endpoints[k]) as real && uses[k].limit.max == Most(endpoints[k])
  {
    KeysShared(endpoints[i], endpoints[k]);
    assert uses[k].limit == endpoints[k].Limit();
  }

  lemma {:induction false} CountedIsPassed(stores: seq<Store>, endpoints: seq<Endpoint>, uses: seq<AuthUse>,
                                           answers: seq<bool>, i: nat)
    requires EndpointRun(stores, endpoints, uses, answers) && i < |uses|
    ensures Counted(endpoints, uses, answers, i)
              == PassedAfter(uses, answers, uses[i].key, i, Reached(uses, uses[i].key, i, uses[i].Cutoff()))
  {
    var key := uses[i].key;
    forall j | 0 <= j < i
      ensures uses[j].at > Reached(uses, key, i, uses[i].Cutoff()) <==>
                forall k :: 0 <= k <= i && Share(endpoints[i], endpoints[k]) ==>
                  uses[j].at > uses[k].at - Seconds(endpoints[k]) as real
      ensures uses[j].key == key <==> Share(endpoints[i], endpoints[j])
    {
      ReachedBelow(uses, key, i, uses[i].Cutoff(), uses[j].at);
      forall k {:trigger uses[k]} | 0 <= k <= i
        ensures uses[k].key == key <==> Share(endpoints[i], endpoints[k])
        ensures uses[k].Cutoff() == uses[k].at - Seconds(endpoints[k]) as real
      {
        EndpointParts(endpoints, uses, stores, answers, i, k);
      }
    }
  }

  lemma {:induction false} ReachedBelow(uses: seq<AuthUse>, key: string, n: nat, floor: real, t: real)
    requires n <= |uses|
    ensures Reached(uses, key, n, floor) < t
       <==> floor < t && forall j {:trigger uses[j]} :: 0 <= j < n && uses[j].key == key ==> uses[j].Cutoff() < t
    decreases n
  {
    if n != 0 {
      ReachedBelow(uses, key, n - 1, floor, t);
    }
  }

  /** In every run of the endpoints, a request is let through if and only if fewer than its number are counted. */
  lemma {:induction false} EndpointAnswersExactly(stores: seq<Store>, endpoints: seq<Endpoint>, uses: seq<AuthUse>,
                                                  answers: seq<bool>, i: nat)
    requires EndpointRun(stores, endpoints, uses, answers) && i < |uses|
    ensures answers[i] <==> |Counted(endpoints, uses, answers, i)| < Most(endpoints[i])
  {
    var key, c := uses[i].key, uses[i].Cutoff();
    EndpointParts(endpoints, uses, stores, answers, i, i);
    CountedIsPassed(stores, endpoints, uses, answers, i);
    PassedAfterCounts(uses, answers, key, i, Reached(uses, key, i, c));
    AuthAnswerIsExact(stores, uses, answers, i);
    ReachedAtMost(uses, key, i, c, c);
    RaisedCutoff(Passed(uses, answers, key, i), c, Reached(uses, key, i, c));
  }
}
