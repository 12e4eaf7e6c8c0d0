/** Callers of the limiter: merging of limits, and the double charge of visitors. */
module RateLimitService {
  import opened Common
  import opened RateLimitStore
  import opened RateLimitRuns

  datatype Role = Visitor | Authenticated | Administrator | OtherRole

  datatype LimitConfig = LimitConfig(soft: int, hard: int, window: int)

  // ----- merging limits

  /** The smaller of two limits, where zero stands for no limit. */
  function Effective(a: int, b: int): int {
    if a == 0 then b else if b == 0 then a else if a < b then a else b
  }

  /** The merged limit blocks exactly what one of the two blocks, unless one of them is negative and
      the other positive. */
  lemma {:induction false} EffectiveBlocks(a: int, b: int)
    ensures (forall count: nat :: Blocks(Effective(a, b), count) <==> Blocks(a, count) || Blocks(b, count))
       <==> !(a < 0 < b) && !(b < 0 < a)
  {
    if a < 0 < b {
      assert Blocks(b, b) && !Blocks(Effective(a, b), b);
    } else if b < 0 < a {
      assert Blocks(a, a) && !Blocks(Effective(a, b), a);
    }
  }

  function DefaultLimits(role: Role): LimitConfig {
    match role
    case Visitor => LimitConfig(1, 200, 3600)
    case Authenticated => LimitConfig(1, 500, 3600)
    case Administrator => LimitConfig(0, 3600, 3600)
    case OtherRole => LimitConfig(0, 0, 3600)
  }

  /** The limits in force: the role's own merged with those of the tool; the window is the role's. */
  function EffectiveLimits(role: Role, roleWide: Option<LimitConfig>, perTool: Option<LimitConfig>): LimitConfig {
    var base := if roleWide.Some? then roleWide.value else DefaultLimits(role);
    var tool := if perTool.Some? then perTool.value else LimitConfig(0, 0, 0);
    LimitConfig(Effective(base.soft, tool.soft), Effective(base.hard, tool.hard), base.window)
  }

  /** Without any configuration: visitors may make one call a second and 200 an hour, users 500 an hour,
      administrators 3600 an hour, and other roles as many as they like. */
  lemma {:induction false} DefaultsMeaning(count: nat)
    ensures var visitor, user := EffectiveLimits(Visitor, None, None), EffectiveLimits(Authenticated, None, None);
            var admin, other := EffectiveLimits(Administrator, None, None), EffectiveLimits(OtherRole, None, None);
            && (Blocks(visitor.soft, count) <==> count >= 1) && (Blocks(visitor.hard, count) <==> count >= 200)
            && (Blocks(user.soft, count) <==> count >= 1) && (Blocks(user.hard, count) <==> count >= 500)
            && !Blocks(admin.soft, count) && (Blocks(admin.hard, count) <==> count >= 3600)
            && !Blocks(other.soft, count) && !Blocks(other.hard, count)
            && visitor.window == user.window == admin.window == other.window == 3600
  {
    assert !Blocks(0, count);
  }

  /** A count is blocked by the resolved limits exactly when the role's limits or the tool's block it. */
  lemma {:induction false} ResolvedLimitsBlock(role: Role, roleWide: Option<LimitConfig>, perTool: LimitConfig,
                                               count: nat)
    requires perTool.soft >= 0 && perTool.hard >= 0
    requires roleWide.Some? ==> roleWide.value.soft >= 0 && roleWide.value.hard >= 0
    ensures var base := if roleWide.Some? then roleWide.value else DefaultLimits(role);
            var both, alone := EffectiveLimits(role, roleWide, Some(perTool)), EffectiveLimits(role, roleWide, None);
            && (Blocks(both.soft, count) <==> Blocks(base.soft, count) || Blocks(perTool.soft, count))
            && (Blocks(both.hard, count) <==> Blocks(base.hard, count) || Blocks(perTool.hard, count))
            && alone == base && both.window == base.window
  {
    var base := if roleWide.Some? then roleWide.value else DefaultLimits(role);
    EffectiveBlocks(base.soft, perTool.soft);
    EffectiveBlocks(base.hard, perTool.hard);
  }

  // ----- keys

  lemma {:induction false} ColonSplits(a: string, b: string, a': string, b': string)
    requires ':' !in a && ':' !in a'
    requires a + ":" + b == a' + ":" + b'
    ensures a == a' && b == b'
  {
    var s := a + ":" + b;
    assert s[|a|] == ':' && s[|a'|] == ':';
    assert forall i :: 0 <= i < |a| ==> s[i] == a[i] && a[i] in a;
    assert forall i :: 0 <= i < |a'| ==> s[i] == a'[i] && a'[i] in a';
    assert |a| == |a'|;
    assert a == s[..|a|] && b == s[|a| + 1..];
    assert a' == s[..|a|] && b' == s[|a| + 1..];
  }

  /** Two callers share a log only if they share type and identifier, colons in identifiers or not. */
  lemma {:induction false} KeysAreInjective(type1: string, id1: string, type2: string, id2: string)
    requires ':' !in type1 && ':' !in type2
    requires RateLimitKey(type1, id1) == RateLimitKey(type2, id2)
    ensures type1 == type2 && id1 == id2
  {
    assert RateLimitKey(type1, id1)[|"ratelimit:"|..] == type1 + ":" + id1;
    assert RateLimitKey(type2, id2)[|"ratelimit:"|..] == type2 + ":" + id2;
    ColonSplits(type1, id1, type2, id2);
  }

  // ----- one tool execution

  /** A request to run a tool, with the limits resolved for it, and the two clock readings and two
      generated members it may cost. */
  datatype ToolCall = ToolCall(
    role: Role, userId: Option<string>, sessionId: string, sourceIp: string,
    limits: LimitConfig, ipSoft: int, ipHard: int, at: real, ipAt: real, member: string, ipMember: string)
  {
    predicate HasUser() { userId.Some? && userId.value != "" }

    predicate ChargesSession() { role.Visitor? || !HasUser() }

    function KeyType(): string {
      if ChargesSession() then "session" else "user"
    }

    function KeyId(): string {
      if ChargesSession() then sessionId else userId.value
    }

    function First(): Request {
      Request(RateLimitKey(KeyType(), KeyId()), at, Policy(limits.soft, limits.hard, 1, limits.window))
    }

    function Second(): Request {
      Request(RateLimitKey("ip", sourceIp), ipAt, Policy(ipSoft, ipHard, 1, limits.window))
    }
  }

  /** The members generated for a call are new to the sets they may be added to. */
  predicate IsFreshCall(b: Backend, c: ToolCall) {
    IsFresh(b, c.First().key, c.member) && IsFresh(b, c.Second().key, c.ipMember)
  }

  /** One check with a member that is new. */
  ghost predicate Charge(b: Backend, q: Request, member: string, b': Backend, r: RateLimitResult) {
    IsFresh(b, q.key, member) && CheckStep(b, q, member, b', r)
  }

  /** What one call does to the selected store: visitors pay on the session and then on the address. */
  ghost predicate ToolStep(b: Backend, c: ToolCall, b': Backend, r: RateLimitResult) {
    if c.role.Visitor? then
      exists mid, first :: Charge(b, c.First(), c.member, mid, first) &&
        if !first.allowed then b' == mid && r == first
        else exists second :: Charge(mid, c.Second(), c.ipMember, b', second) &&
               r == if second.allowed then first else second
    else Charge(b, c.First(), c.member, b', r)
  }

  /** Charging one key leaves the members of another alone. */
  lemma {:induction false} OtherKeyStaysFresh(b: Backend, q: Request, member: string, b': Backend, r: RateLimitResult,
                                              key: string, other: string)
    requires CheckStep(b, q, member, b', r) && key != q.key && IsFresh(b, key, other)
    ensures IsFresh(b', key, other)
  {
  }

  method CheckToolRateLimit(limiter: RateLimiter, c: ToolCall) returns (r: RateLimitResult)
    requires IsFreshCall(limiter.State(), c)
    modifies limiter.fallback, limiter.redis
    ensures ToolStep(old(limiter.State()), c, limiter.State(), r)
  {
    if c.role.Visitor? {
      var policy := Policy(c.limits.soft, c.limits.hard, 1, c.limits.window);
      var sessionResult := limiter.Check("session", c.sessionId, policy, c.at, c.member);
      ghost var mid := limiter.State();
      assert Charge(old(limiter.State()), c.First(), c.member, mid, sessionResult);
      if !sessionResult.allowed {
        return sessionResult;
      }
      AddressCharges(c, c.sourceIp);
      OtherKeyStaysFresh(old(limiter.State()), c.First(), c.member, mid, sessionResult, c.Second().key, c.ipMember);
      var ipPolicy := Policy(c.ipSoft, c.ipHard, 1, c.limits.window);
      var ipResult := limiter.Check("ip", c.sourceIp, ipPolicy, c.ipAt, c.ipMember);
      assert Charge(mid, c.Second(), c.ipMember, limiter.State(), ipResult);
      if !ipResult.allowed {
        return ipResult;
      }
      return sessionResult;
    }
    var keyId := if c.HasUser() then c.userId.value else c.sessionId;
    var keyType := if c.HasUser() then "user" else "session";
    r := limiter.Check(keyType, keyId, Policy(c.limits.soft, c.limits.hard, 1, c.limits.window), c.at, c.member);
  }

  // ----- runs in which calls interleave

  /** One of the charges of one of the calls: the second is that of a visitor's address. */
  datatype Stage = Stage(call: nat, second: bool)

  ghost predicate AreOf(stages: seq<Stage>, calls: seq<ToolCall>) {
    forall i {:trigger stages[i]} :: 0 <= i < |stages| ==> stages[i].call < |calls|
  }

  function RequestOf(calls: seq<ToolCall>, t: Stage): Request
    requires t.call < |calls|
  {
    if t.second then calls[t.call].Second() else calls[t.call].First()
  }

  function MemberOf(calls: seq<ToolCall>, t: Stage): string
    requires t.call < |calls|
  {
    if t.second then calls[t.call].ipMember else calls[t.call].member
  }

  ghost function Requests(calls: seq<ToolCall>, stages: seq<Stage>): (reqs: seq<Request>)
    requires AreOf(stages, calls)
    ensures |reqs| == |stages| && forall i :: 0 <= i < |stages| ==> reqs[i] == RequestOf(calls, stages[i])
  {
    seq(|stages|, i requires 0 <= i < |stages| => RequestOf(calls, stages[i]))
  }

  ghost function Members(calls: seq<ToolCall>, stages: seq<Stage>): (members: seq<string>)
    requires AreOf(stages, calls)
    ensures |members| == |stages| && forall i :: 0 <= i < |stages| ==> members[i] == MemberOf(calls, stages[i])
  {
    seq(|stages|, i requires 0 <= i < |stages| => MemberOf(calls, stages[i]))
  }

  /** The i-th charge is the first one of this call, and it was let through. */
  predicate PassesFirst(stages: seq<Stage>, results: seq<RateLimitResult>, call: nat, i: nat)
    requires |results| == |stages| && i < |stages|
  {
    stages[i] == Stage(call, false) && results[i].allowed
  }

  ghost predicate PassedBefore(stages: seq<Stage>, results: seq<RateLimitResult>, call: nat, n: nat)
    requires |results| == |stages| && n <= |stages|
  {
    exists i :: 0 <= i < n && PassesFirst(stages, results, call, i)
  }

  /** Charges of calls in progress at the same time, in any order: each is made at most once, and the second
      one of a call by a visitor alone and after its first has been let through. */
  ghost predicate Interleaves(calls: seq<ToolCall>, stages: seq<Stage>, results: seq<RateLimitResult>) {
    && AreOf(stages, calls) && |results| == |stages| && NoDuplicates(stages)
    && forall i {:trigger stages[i]} :: 0 <= i < |stages| && stages[i].second ==>
         calls[stages[i].call].role.Visitor? && PassedBefore(stages, results, stages[i].call, i)
  }

  /** A run of tool executions over the selected store, from empty stores. */
  ghost predicate ToolRun(states: seq<Backend>, calls: seq<ToolCall>, stages: seq<Stage>,
                          results: seq<RateLimitResult>) {
    && Interleaves(calls, stages, results)
    && LimiterRun(states, Requests(calls, stages), Members(calls, stages), results)
  }

  /** However the charges of different calls interleave, and whichever store is selected, every charge is
      answered as by the limiter that forgets nothing. */
  lemma {:induction false} ToolRunFollowsHistory(states: seq<Backend>, calls: seq<ToolCall>, stages: seq<Stage>,
                              results: seq<RateLimitResult>)
    requires ToolRun(states, calls, stages, results) && Suits(states[0].inMemory, Requests(calls, stages))
    ensures FromHistory(Requests(calls, stages), results, !states[0].inMemory)
  {
    LimiterRunFollowsHistory(states, Requests(calls, stages), Members(calls, stages), results);
  }

  // ----- who is let through

  /** The call was let through in the end: its last charge was. */
  ghost predicate LetThrough(calls: seq<ToolCall>, stages: seq<Stage>, results: seq<RateLimitResult>, call: nat)
    requires |results| == |stages| && call < |calls|
  {
    if calls[call].role.Visitor?
    then exists i :: 0 <= i < |stages| && stages[i] == Stage(call, true) && results[i].allowed
    else PassedBefore(stages, results, call, |stages|)
  }

  /** A visit to this session (from this address), by the charge that counts it there. */
  ghost predicate IsSessionVisit(calls: seq<ToolCall>, stages: seq<Stage>, results: seq<RateLimitResult>,
                                 session: string, i: nat)
    requires AreOf(stages, calls) && |results| == |stages| && i < |stages|
  {
    var c := calls[stages[i].call];
    && c.role.Visitor? && c.sessionId == session && LetThrough(calls, stages, results, stages[i].call)
    && PassesFirst(stages, results, stages[i].call, i)
  }

  ghost predicate IsAddressVisit(calls: seq<ToolCall>, stages: seq<Stage>, results: seq<RateLimitResult>, ip: string,
                                 i: nat)
    requires AreOf(stages, calls) && |results| == |stages| && i < |stages|
  {
    var c := calls[stages[i].call];
    c.role.Visitor? && c.sourceIp == ip && stages[i].second && results[i].allowed
  }

  /** The times of those of the first `n` requests that stand at certain positions. */
  ghost function TimesAt(reqs: seq<Request>, positions: set<nat>, n: nat): seq<real>
    requires n <= |reqs|
  {
    if n == 0 then []
    else TimesAt(reqs, positions, n - 1) + if n - 1 in positions then [reqs[n - 1].now] else []
  }

  /** When the visitors let through in the end were charged on their session. */
  ghost function SessionVisits(calls: seq<ToolCall>, stages: seq<Stage>, results: seq<RateLimitResult>,
                               session: string): seq<real>
    requires AreOf(stages, calls) && |results| == |stages|
  {
    var positions := set i: nat | i < |stages| && IsSessionVisit(calls, stages, results, session, i);
    TimesAt(Requests(calls, stages), positions, |stages|)
  }

  /** When they were charged on their address. */
  ghost function AddressVisits(calls: seq<ToolCall>, stages: seq<Stage>, results: seq<RateLimitResult>,
                               ip: string): seq<real>
    requires AreOf(stages, calls) && |results| == |stages|
  {
    var positions := set i: nat | i < |stages| && IsAddressVisit(calls, stages, results, ip, i);
    TimesAt(Requests(calls, stages), positions, |stages|)
  }

  /** Every visitor let through has one visit to the session and one from the address. */
  lemma {:induction false} VisitsAreCounted(calls: seq<ToolCall>, stages: seq<Stage>, results: seq<RateLimitResult>,
                                            call: nat) returns (i: nat, k: nat)
    requires Interleaves(calls, stages, results) && call < |calls|
    requires calls[call].role.Visitor? && LetThrough(calls, stages, results, call)
    ensures i < k < |stages| && stages[i] == Stage(call, false) && stages[k] == Stage(call, true)
    ensures IsSessionVisit(calls, stages, results, calls[call].sessionId, i)
    ensures IsAddressVisit(calls, stages, results, calls[call].sourceIp, k)
  {
    k :| 0 <= k < |stages| && stages[k] == Stage(call, true) && results[k].allowed;
    i :| 0 <= i < k && PassesFirst(stages, results, call, i);
  }

  lemma {:induction false} KeyTypesHaveNoColon(c: ToolCall)
    ensures ':' !in c.KeyType() && ':' !in "session" && ':' !in "ip" && "session" != "ip" && "user" != "ip"
              && "user" != "session"
  {
    assert |"ip"| == 2 && |"user"| == 4 && |"session"| == 7;
  }

  lemma {:induction false} SessionCharges(c: ToolCall, session: string)
    ensures c.Second().key != RateLimitKey("session", session)
    ensures c.First().key == RateLimitKey("session", session) <==> c.ChargesSession() && c.sessionId == session
  {
    KeyTypesHaveNoColon(c);
    if c.Second().key == RateLimitKey("session", session) {
      KeysAreInjective("ip", c.sourceIp, "session", session);
    }
    if c.First().key == RateLimitKey("session", session) {
      KeysAreInjective(c.KeyType(), c.KeyId(), "session", session);
    }
  }

  lemma {:induction false} AddressCharges(c: ToolCall, ip: string)
    ensures c.First().key != RateLimitKey("ip", ip)
    ensures c.Second().key == RateLimitKey("ip", ip) <==> c.sourceIp == ip
  {
    KeyTypesHaveNoColon(c);
    if c.Second().key == RateLimitKey("ip", ip) {
      KeysAreInjective("ip", c.sourceIp, "ip", ip);
    }
    if c.First().key == RateLimitKey("ip", ip) {
      KeysAreInjective(c.KeyType(), c.KeyId(), "ip", ip);
    }
  }

  /** A call charged to the session runs there under this window and at most this positive limit. */
  ghost predicate SessionPolicy(c: ToolCall, session: string, soft: bool, window: real, limit: nat) {
    c.ChargesSession() && c.sessionId == session ==>
      c.First().policy.Window(soft) as real == window && 0 < c.First().policy.Limit(soft) <= limit
  }

  ghost predicate AddressPolicy(c: ToolCall, ip: string, soft: bool, window: real, limit: nat) {
    c.role.Visitor? && c.sourceIp == ip ==>
      c.Second().policy.Window(soft) as real == window && 0 < c.Second().policy.Limit(soft) <= limit
  }

  lemma {:induction false} SessionVisitIsAdmitted(calls: seq<ToolCall>, stages: seq<Stage>,
                                                  results: seq<RateLimitResult>, session: string, i: nat)
    requires AreOf(stages, calls) && |results| == |stages| && i < |stages|
    requires IsSessionVisit(calls, stages, results, session, i)
    ensures results[i].allowed && RequestOf(calls, stages[i]).now == calls[stages[i].call].at
    ensures RequestOf(calls, stages[i]).key == RateLimitKey("session", session)
  {
    SessionCharges(calls[stages[i].call], session);
  }

  lemma {:induction false} AddressVisitIsAdmitted(calls: seq<ToolCall>, stages: seq<Stage>,
                                                  results: seq<RateLimitResult>, ip: string, i: nat)
    requires AreOf(stages, calls) && |results| == |stages| && i < |stages|
    requires IsAddressVisit(calls, stages, results, ip, i)
    ensures results[i].allowed && RequestOf(calls, stages[i]).now == calls[stages[i].call].ipAt
    ensures RequestOf(calls, stages[i]).key == RateLimitKey("ip", ip)
  {
    AddressCharges(calls[stages[i].call], ip);
  }

  lemma {:induction false} AdmittedCoverTimes(reqs: seq<Request>, results: seq<RateLimitResult>, key: string,
                                              positions: set<nat>, n: nat, lo: real, hi: real)
    requires |results| == |reqs| && n <= |reqs|
    requires forall i :: i in positions && i < |reqs| ==> reqs[i].key == key && results[i].allowed
    ensures CountIn(TimesAt(reqs, positions, n), lo, hi) <= CountIn(AdmittedTimes(reqs, results, key, n), lo, hi)
    decreases n
  {
    if n != 0 {
      AdmittedCoverTimes(reqs, results, key, positions, n - 1, lo, hi);
      CountInSnoc(TimesAt(reqs, positions, n - 1), reqs[n - 1].now, lo, hi);
      CountInSnoc(AdmittedTimes(reqs, results, key, n - 1), reqs[n - 1].now, lo, hi);
      assert TimesAt(reqs, positions, n - 1) + [] == TimesAt(reqs, positions, n - 1);
    }
  }

  /** However calls interleave, the visits let through for one session stay within the limits of the
      session in every window, soft and hard ... */
  lemma {:induction false} VisitorsRespectSessionLimits(states: seq<Backend>, calls: seq<ToolCall>, stages: seq<Stage>,
                                     results: seq<RateLimitResult>, session: string, soft: bool, limit: nat,
                                     lo: real, hi: real)
    requires ToolRun(states, calls, stages, results) && Suits(states[0].inMemory, Requests(calls, stages))
    requires forall j {:trigger calls[j]} :: 0 <= j < |calls| ==> SessionPolicy(calls[j], session, soft, hi - lo, limit)
    ensures CountIn(SessionVisits(calls, stages, results, session), lo, hi) <= limit
  {
    var reqs, key := Requests(calls, stages), RateLimitKey("session", session);
    forall i | 0 <= i < |reqs| && reqs[i].key == key
      ensures reqs[i].policy.Window(soft) as real == hi - lo && 0 < reqs[i].policy.Limit(soft) <= limit
    {
      SessionCharges(calls[stages[i].call], session);
      assert SessionPolicy(calls[stages[i].call], session, soft, hi - lo, limit);
    }
    var positions := set i: nat | i < |stages| && IsSessionVisit(calls, stages, results, session, i);
    forall i | i in positions
      ensures reqs[i].key == key && results[i].allowed
    {
      SessionVisitIsAdmitted(calls, stages, results, session, i);
    }
    AdmittedCoverTimes(reqs, results, key, positions, |stages|, lo, hi);
    RunsRespectLimits(states, reqs, Members(calls, stages), results, key, soft, limit, lo, hi);
  }

  /** ... and those let through for one address within the limits of the address. */
  lemma {:induction false} VisitorsRespectAddressLimits(states: seq<Backend>, calls: seq<ToolCall>, stages: seq<Stage>,
                                     results: seq<RateLimitResult>, ip: string, soft: bool, limit: nat,
                                     lo: real, hi: real)
    requires ToolRun(states, calls, stages, results) && Suits(states[0].inMemory, Requests(calls, stages))
    requires forall j {:trigger calls[j]} :: 0 <= j < |calls| ==> AddressPolicy(calls[j], ip, soft, hi - lo, limit)
    ensures CountIn(AddressVisits(calls, stages, results, ip), lo, hi) <= limit
  {
    var reqs, key := Requests(calls, stages), RateLimitKey("ip", ip);
    forall i | 0 <= i < |reqs| && reqs[i].key == key
      ensures reqs[i].policy.Window(soft) as real == hi - lo && 0 < reqs[i].policy.Limit(soft) <= limit
    {
      AddressCharges(calls[stages[i].call], ip);
      assert AddressPolicy(calls[stages[i].call], ip, soft, hi - lo, limit);
    }
    var positions := set i: nat | i < |stages| && IsAddressVisit(calls, stages, results, ip, i);
    forall i | i in positions
      ensures reqs[i].key == key && results[i].allowed
    {
      AddressVisitIsAdmitted(calls, stages, results, ip, i);
    }
    AdmittedCoverTimes(reqs, results, key, positions, |stages|, lo, hi);
    RunsRespectLimits(states, reqs, Members(calls, stages), results, key, soft, limit, lo, hi);
  }

  // ----- which charges pass

  /** The charges let through on a session, among the first `n`, after a time (or at it, when inclusive):
      visitors, and whoever is not logged in. */
  ghost function SessionPassed(calls: seq<ToolCall>, stages: seq<Stage>, results: seq<RateLimitResult>, session: string,
                               n: nat, from: real, inclusive: bool): set<nat>
    requires AreOf(stages, calls) && |results| == |stages| && n <= |stages|
  {
    set i: nat | i < n && !stages[i].second && results[i].allowed
                 && var c := calls[stages[i].call];
                    && (c.role == Visitor || c.userId == None || c.userId == Some("")) && c.sessionId == session
                    && (c.at > from || (inclusive && c.at == from))
  }

  /** The same on a user, by anybody else. */
  ghost function UserPassed(calls: seq<ToolCall>, stages: seq<Stage>, results: seq<RateLimitResult>, user: string,
                            n: nat, from: real, inclusive: bool): set<nat>
    requires AreOf(stages, calls) && |results| == |stages| && n <= |stages|
  {
    set i: nat | i < n && !stages[i].second && results[i].allowed
                 && var c := calls[stages[i].call];
                    && c.role != Visitor && c.userId == Some(user) && user != ""
                    && (c.at > from || (inclusive && c.at == from))
  }

  /** The same on an address, by visitors that have passed on their session. */
  ghost function AddressPassed(calls: seq<ToolCall>, stages: seq<Stage>, results: seq<RateLimitResult>, ip: string,
                               n: nat, from: real, inclusive: bool): set<nat>
    requires AreOf(stages, calls) && |results| == |stages| && n <= |stages|
  {
    set i: nat | i < n && stages[i].second && results[i].allowed
                 && var c := calls[stages[i].call];
                    c.sourceIp == ip && (c.ipAt > from || (inclusive && c.ipAt == from))
  }

  /** The requests of a run, by key and time. */
  lemma {:induction false} StageKey(calls: seq<ToolCall>, stages: seq<Stage>, i: nat, session: string, user: string,
                                    ip: string)
    requires AreOf(stages, calls) && i < |stages|
    ensures var q, c := RequestOf(calls, stages[i]), calls[stages[i].call];
            && q.now == (if stages[i].second then c.ipAt else c.at)
            && (q.key == RateLimitKey("session", session) <==>
                  !stages[i].second && (c.role == Visitor || c.userId == None || c.userId == Some(""))
                      && c.sessionId == session)
            && (q.key == RateLimitKey("user", user) <==>
                  !stages[i].second && c.role != Visitor && c.userId == Some(user) && user != "")
            && (q.key == RateLimitKey("ip", ip) <==> stages[i].second && c.sourceIp == ip)
  {
    var c := calls[stages[i].call];
    SessionCharges(c, session);
    AddressCharges(c, ip);
    UserCharges(c, user);
  }

  lemma {:induction false} UserCharges(c: ToolCall, user: string)
    ensures c.Second().key != RateLimitKey("user", user)
    ensures c.First().key == RateLimitKey("user", user) <==> !c.ChargesSession() && c.userId == Some(user)
  {
    KeyTypesHaveNoColon(c);
    if c.Second().key == RateLimitKey("user", user) {
      KeysAreInjective("ip", c.sourceIp, "user", user);
    }
    if c.First().key == RateLimitKey("user", user) {
      KeysAreInjective(c.KeyType(), c.KeyId(), "user", user);
    }
  }

  lemma {:induction false} SessionPassedSince(calls: seq<ToolCall>, stages: seq<Stage>, results: seq<RateLimitResult>,
                                              session: string, n: nat, from: real, inclusive: bool)
    requires AreOf(stages, calls) && |results| == |stages| && n <= |stages|
    ensures PassedSince(Requests(calls, stages), results, RateLimitKey("session", session), n, from, inclusive)
              == SessionPassed(calls, stages, results, session, n, from, inclusive)
  {
    forall i | 0 <= i < n
      ensures i in PassedSince(Requests(calls, stages), results, RateLimitKey("session", session), n, from, inclusive)
         <==> i in SessionPassed(calls, stages, results, session, n, from, inclusive)
    {
      StageKey(calls, stages, i, session, "", "");
    }
  }

  lemma {:induction false} UserPassedSince(calls: seq<ToolCall>, stages: seq<Stage>, results: seq<RateLimitResult>,
                                           user: string, n: nat, from: real, inclusive: bool)
    requires AreOf(stages, calls) && |results| == |stages| && n <= |stages|
    ensures PassedSince(Requests(calls, stages), results, RateLimitKey("user", user), n, from, inclusive)
              == UserPassed(calls, stages, results, user, n, from, inclusive)
  {
    forall i | 0 <= i < n
      ensures i in PassedSince(Requests(calls, stages), results, RateLimitKey("user", user), n, from, inclusive)
         <==> i in UserPassed(calls, stages, results, user, n, from, inclusive)
    {
      StageKey(calls, stages, i, "", user, "");
    }
  }

  lemma {:induction false} AddressPassedSince(calls: seq<ToolCall>, stages: seq<Stage>, results: seq<RateLimitResult>,
                                              ip: string, n: nat, from: real, inclusive: bool)
    requires AreOf(stages, calls) && |results| == |stages| && n <= |stages|
    ensures PassedSince(Requests(calls, stages), results, RateLimitKey("ip", ip), n, from, inclusive)
              == AddressPassed(calls, stages, results, ip, n, from, inclusive)
  {
    forall i | 0 <= i < n
      ensures i in PassedSince(Requests(calls, stages), results, RateLimitKey("ip", ip), n, from, inclusive)
         <==> i in AddressPassed(calls, stages, results, ip, n, from, inclusive)
    {
      StageKey(calls, stages, i, "", "", ip);
    }
  }

  /** The charge passes if and only if fewer visitors than the soft limit of the address have passed there in
      the last second, and fewer than the hard limit in the last window. */
  ghost predicate AddressChargeWithin(calls: seq<ToolCall>, stages: seq<Stage>, results: seq<RateLimitResult>, i: nat,
                                 inMemory: bool)
    requires AreOf(stages, calls) && |results| == |stages| && i < |stages|
  {
    var c := calls[stages[i].call];
    var edge, second, window := !inMemory && 1 < c.limits.window, c.ipAt - 1.0, c.ipAt - c.limits.window as real;
    results[i].allowed
    <==> && Within(c.ipSoft, AddressPassed(calls, stages, results, c.sourceIp, i, second, edge))
         && Within(c.ipHard, AddressPassed(calls, stages, results, c.sourceIp, i, window, false))
  }

  /** The same for a session and the limits of the call ... */
  ghost predicate SessionChargeWithin(calls: seq<ToolCall>, stages: seq<Stage>, results: seq<RateLimitResult>, i: nat,
                                 inMemory: bool)
    requires AreOf(stages, calls) && |results| == |stages| && i < |stages|
  {
    var c := calls[stages[i].call];
    var edge, second, window := !inMemory && 1 < c.limits.window, c.at - 1.0, c.at - c.limits.window as real;
    results[i].allowed
    <==> && Within(c.limits.soft, SessionPassed(calls, stages, results, c.sessionId, i, second, edge))
         && Within(c.limits.hard, SessionPassed(calls, stages, results, c.sessionId, i, window, false))
  }

  /** ... and for a user. */
  ghost predicate UserChargeWithin(calls: seq<ToolCall>, stages: seq<Stage>, results: seq<RateLimitResult>, i: nat,
                                 inMemory: bool, user: string)
    requires AreOf(stages, calls) && |results| == |stages| && i < |stages|
  {
    var c := calls[stages[i].call];
    var edge, second, window := !inMemory && 1 < c.limits.window, c.at - 1.0, c.at - c.limits.window as real;
    results[i].allowed
    <==> && Within(c.limits.soft, UserPassed(calls, stages, results, user, i, second, edge))
         && Within(c.limits.hard, UserPassed(calls, stages, results, user, i, window, false))
  }

  lemma {:induction false} AddressChargeCounted(calls: seq<ToolCall>, stages: seq<Stage>, results: seq<RateLimitResult>,
                                               i: nat, inMemory: bool)
    requires AreOf(stages, calls) && |results| == |stages| && i < |stages|
    requires stages[i].second
    requires PassesAsCounted(Requests(calls, stages), results, i, inMemory)
    ensures AddressChargeWithin(calls, stages, results, i, inMemory)
  {
    var c := calls[stages[i].call];
    var edge, second, window := !inMemory && 1 < c.limits.window, c.ipAt - 1.0, c.ipAt - c.limits.window as real;
    AddressPassedSince(calls, stages, results, c.sourceIp, i, second, edge);
    AddressPassedSince(calls, stages, results, c.sourceIp, i, window, false);
    PassesBy(Requests(calls, stages), results, i, inMemory, RateLimitKey("ip", c.sourceIp), c.ipAt,
             Policy(c.ipSoft, c.ipHard, 1, c.limits.window),
             AddressPassed(calls, stages, results, c.sourceIp, i, second, edge),
             AddressPassed(calls, stages, results, c.sourceIp, i, window, false));
  }

  lemma {:induction false} SessionChargeCounted(calls: seq<ToolCall>, stages: seq<Stage>, results: seq<RateLimitResult>,
                                               i: nat, inMemory: bool)
    requires AreOf(stages, calls) && |results| == |stages| && i < |stages|
    requires !stages[i].second
    requires var c := calls[stages[i].call]; c.role == Visitor || c.userId == None || c.userId == Some("")
    requires PassesAsCounted(Requests(calls, stages), results, i, inMemory)
    ensures SessionChargeWithin(calls, stages, results, i, inMemory)
  {
    var c := calls[stages[i].call];
    var edge, second, window := !inMemory && 1 < c.limits.window, c.at - 1.0, c.at - c.limits.window as real;
    SessionPassedSince(calls, stages, results, c.sessionId, i, second, edge);
    SessionPassedSince(calls, stages, results, c.sessionId, i, window, false);
    PassesBy(Requests(calls, stages), results, i, inMemory, RateLimitKey("session", c.sessionId), c.at,
             Policy(c.limits.soft, c.limits.hard, 1, c.limits.window),
             SessionPassed(calls, stages, results, c.sessionId, i, second, edge),
             SessionPassed(calls, stages, results, c.sessionId, i, window, false));
  }

  lemma {:induction false} UserChargeCounted(calls: seq<ToolCall>, stages: seq<Stage>, results: seq<RateLimitResult>,
                                               i: nat, inMemory: bool, user: string)
    requires AreOf(stages, calls) && |results| == |stages| && i < |stages|
    requires !stages[i].second
    requires var c := calls[stages[i].call]; c.role != Visitor && c.userId == Some(user) && user != ""
    requires PassesAsCounted(Requests(calls, stages), results, i, inMemory)
    ensures UserChargeWithin(calls, stages, results, i, inMemory, user)
  {
    var c := calls[stages[i].call];
    var edge, second, window := !inMemory && 1 < c.limits.window, c.at - 1.0, c.at - c.limits.window as real;
    UserPassedSince(calls, stages, results, user, i, second, edge);
    UserPassedSince(calls, stages, results, user, i, window, false);
    PassesBy(Requests(calls, stages), results, i, inMemory, RateLimitKey("user", user), c.at,
             Policy(c.limits.soft, c.limits.hard, 1, c.limits.window),
             UserPassed(calls, stages, results, user, i, second, edge),
             UserPassed(calls, stages, results, user, i, window, false));
  }

  /** In every run over either store, whatever calls interleave, the second charge of a visitor passes exactly
      within the limits of the address; a first charge, of a visitor or of whoever is not logged in, exactly
      within the limits of the call on the session, and anybody else's exactly within them on the user. */
  lemma {:induction false} ChargesPassExactly(states: seq<Backend>, calls: seq<ToolCall>, stages: seq<Stage>,
                                              results: seq<RateLimitResult>, i: nat)
    requires ToolRun(states, calls, stages, results) && Suits(states[0].inMemory, Requests(calls, stages))
    requires i < |stages|
    ensures var c, inMemory := calls[stages[i].call], states[0].inMemory;
            if stages[i].second then AddressChargeWithin(calls, stages, results, i, inMemory)
            else if c.role == Visitor || c.userId == None || c.userId == Some("")
            then SessionChargeWithin(calls, stages, results, i, inMemory)
            else UserChargeWithin(calls, stages, results, i, inMemory, c.userId.value)
  {
    var c, inMemory := calls[stages[i].call], states[0].inMemory;
    PassesExactly(states, Requests(calls, stages), Members(calls, stages), results, i);
    if stages[i].second {
      AddressChargeCounted(calls, stages, results, i, inMemory);
    } else if c.role == Visitor || c.userId == None || c.userId == Some("") {
      SessionChargeCounted(calls, stages, results, i, inMemory);
    } else {
      UserChargeCounted(calls, stages, results, i, inMemory, c.userId.value);
    }
  }

  // ----- calls one after another

  /** A run of whole calls, one after another, as the method makes them. */
  ghost predicate SequentialRun(states: seq<Backend>, calls: seq<ToolCall>, answers: seq<RateLimitResult>) {
    && |states| == |calls| + 1 && |answers| == |calls| && states[0].store == map[] && states[0].keys == map[]
    && forall i :: 0 <= i < |calls| ==> ToolStep(states[i], calls[i], states[i + 1], answers[i])
  }

  /** One more charge at the end of a run. */
  ghost predicate MayFollow(calls: seq<ToolCall>, stages: seq<Stage>, results: seq<RateLimitResult>, t: Stage)
    requires |results| == |stages|
  {
    && t.call < |calls| && t !in stages
    && (t.second ==> calls[t.call].role.Visitor? && PassedBefore(stages, results, t.call, |stages|))
  }

  lemma {:induction false} ChargeExtends(states: seq<Backend>, calls: seq<ToolCall>, stages: seq<Stage>,
                                         results: seq<RateLimitResult>, t: Stage, b: Backend, r: RateLimitResult)
    requires ToolRun(states, calls, stages, results) && MayFollow(calls, stages, results, t)
    requires Charge(states[|stages|], RequestOf(calls, t), MemberOf(calls, t), b, r)
    ensures ToolRun(states + [b], calls, stages + [t], results + [r])
  {
    StaysInterleaved(calls, stages, results, t, r);
    OneMoreCharge(calls, stages, t);
    RunExtends(states, Requests(calls, stages), Members(calls, stages), results, RequestOf(calls, t),
               MemberOf(calls, t),
               b, r);
  }

  lemma {:induction false} OneMoreCharge(calls: seq<ToolCall>, stages: seq<Stage>, t: Stage)
    requires AreOf(stages, calls) && t.call < |calls|
    ensures AreOf(stages + [t], calls)
    ensures Requests(calls, stages + [t]) == Requests(calls, stages) + [RequestOf(calls, t)]
    ensures Members(calls, stages + [t]) == Members(calls, stages) + [MemberOf(calls, t)]
  {
    var all := stages + [t];
    assert AreOf(all, calls);
    assert Requests(calls, all) == Requests(calls, stages) + [RequestOf(calls, t)];
    assert Members(calls, all) == Members(calls, stages) + [MemberOf(calls, t)];
  }

  lemma {:induction false} RunExtends(states: seq<Backend>, reqs: seq<Request>, members: seq<string>,
                                      results: seq<RateLimitResult>, q: Request, member: string, b: Backend,
                                      r: RateLimitResult)
    requires LimiterRun(states, reqs, members, results) && Charge(states[|reqs|], q, member, b, r)
    ensures LimiterRun(states + [b], reqs + [q], members + [member], results + [r])
  {
  }

  lemma {:induction false} StaysInterleaved(calls: seq<ToolCall>, stages: seq<Stage>, results: seq<RateLimitResult>,
                                            t: Stage, r: RateLimitResult)
    requires Interleaves(calls, stages, results) && MayFollow(calls, stages, results, t)
    ensures Interleaves(calls, stages + [t], results + [r])
  {
    var all, ends := stages + [t], results + [r];
    NoDuplicatesSnoc(stages, t);
    forall i {:trigger all[i]} | 0 <= i < |all| && all[i].second
      ensures calls[all[i].call].role.Visitor? && PassedBefore(all, ends, all[i].call, i)
    {
      assert if i < |stages| then all[i] == stages[i] else all[i] == t;
      var k :| 0 <= k < i && PassesFirst(stages, results, all[i].call, k);
      assert PassesFirst(all, ends, all[i].call, k);
    }
  }

  lemma {:induction false} LetThroughExtends(calls: seq<ToolCall>, stages: seq<Stage>, results: seq<RateLimitResult>,
                                             t: Stage, r: RateLimitResult, call: nat)
    requires |results| == |stages| && call < |calls|
    ensures LetThrough(calls, stages + [t], results + [r], call)
       <==> LetThrough(calls, stages, results, call) || (t == Stage(call, calls[call].role.Visitor?) && r.allowed)
    ensures PassedBefore(stages + [t], results + [r], call, |stages| + 1)
       <==> PassedBefore(stages, results, call, |stages|) || (t == Stage(call, false) && r.allowed)
  {
    var all, ends := stages + [t], results + [r];
    assert all[|stages|] == t && ends[|stages|] == r;
    assert forall i :: 0 <= i < |stages| ==> all[i] == stages[i] && ends[i] == results[i];
    if i :| 0 <= i < |stages| && PassesFirst(stages, results, call, i) {
      assert PassesFirst(all, ends, call, i);
    }
    if i :| 0 <= i < |stages| && stages[i] == Stage(call, true) && results[i].allowed {
      assert all[i] == Stage(call, true) && ends[i].allowed;
    }
    if t == Stage(call, false) && r.allowed {
      assert PassesFirst(all, ends, call, |stages|);
    }
    if PassedBefore(all, ends, call, |all|) && !(t == Stage(call, false) && r.allowed) {
      var i :| 0 <= i < |all| && PassesFirst(all, ends, call, i);
      assert PassesFirst(stages, results, call, i);
    }
  }

  ghost predicate CallsBelow(stages: seq<Stage>, n: nat) {
    forall i {:trigger stages[i]} :: 0 <= i < |stages| ==> stages[i].call < n
  }

  /** The result of one of the charges of this call, and of the first one if it was let through. */
  ghost predicate IsTold(stages: seq<Stage>, results: seq<RateLimitResult>, call: nat, r: RateLimitResult)
    requires |results| == |stages|
  {
    exists i :: 0 <= i < |stages| && stages[i].call == call && results[i] == r && (r.allowed ==> !stages[i].second)
  }

  lemma {:induction false} ToldStays(stages: seq<Stage>, results: seq<RateLimitResult>, t: Stage, r: RateLimitResult,
                                     call: nat, told: RateLimitResult)
    requires |results| == |stages|
    ensures IsTold(stages, results, call, told) ==> IsTold(stages + [t], results + [r], call, told)
    ensures (r.allowed ==> !t.second) ==> IsTold(stages + [t], results + [r], t.call, r)
  {
    var all, ends := stages + [t], results + [r];
    assert all[|stages|] == t && ends[|stages|] == r;
    if i :| 0 <= i < |stages| && stages[i].call == call && results[i] == told && (told.allowed ==> !stages[i].second) {
      assert all[i] == stages[i] && ends[i] == results[i];
    }
  }

  lemma {:induction false} AllToldStays(stages: seq<Stage>, results: seq<RateLimitResult>, t: Stage,
                                        r: RateLimitResult, call: nat)
    requires |results| == |stages|
    ensures forall told :: IsTold(stages, results, call, told) ==> IsTold(stages + [t], results + [r], call, told)
    ensures t.call == call && (r.allowed ==> !t.second) ==> IsTold(stages + [t], results + [r], call, r)
  {
    forall told
      ensures IsTold(stages, results, call, told) ==> IsTold(stages + [t], results + [r], call, told)
    {
      ToldStays(stages, results, t, r, call, told);
    }
    ToldStays(stages, results, t, r, call, r);
  }

  /** The answers of the first `n` calls say who was let through, and come from their charges. */
  ghost predicate AnswersTell(calls: seq<ToolCall>, stages: seq<Stage>, results: seq<RateLimitResult>,
                              answers: seq<RateLimitResult>, n: nat)
    requires |results| == |stages| && n <= |calls| == |answers|
  {
    forall j {:trigger answers[j]} :: 0 <= j < n ==>
      (answers[j].allowed <==> LetThrough(calls, stages, results, j)) && IsTold(stages, results, j, answers[j])
  }

  /** A charge of a later call, or one that lets nobody through, changes nothing for the calls before. */
  lemma {:induction false} AnswersStay(calls: seq<ToolCall>, stages: seq<Stage>, results: seq<RateLimitResult>,
                    answers: seq<RateLimitResult>, n: nat, t: Stage, r: RateLimitResult)
    requires |results| == |stages| && n <= |calls| == |answers| && AnswersTell(calls, stages, results, answers, n)
    requires t.call >= n
    ensures AnswersTell(calls, stages + [t], results + [r], answers, n)
  {
    forall j {:trigger answers[j]} | 0 <= j < n
      ensures answers[j].allowed <==> LetThrough(calls, stages + [t], results + [r], j)
      ensures IsTold(stages + [t], results + [r], j, answers[j])
    {
      LetThroughExtends(calls, stages, results, t, r, j);
      ToldStays(stages, results, t, r, j, answers[j]);
    }
  }

  /** A run up to some charge of the n-th call, with the answers to the calls before it. */
  ghost predicate UpTo(states: seq<Backend>, calls: seq<ToolCall>, stages: seq<Stage>, results: seq<RateLimitResult>,
                       answers: seq<RateLimitResult>, n: nat, b: Backend)
  {
    && ToolRun(states, calls, stages, results) && CallsBelow(stages, n + 1) && n < |calls| == |answers|
    && AnswersTell(calls, stages, results, answers, n) && states[|stages|] == b
  }

  lemma {:induction false} OneMore(states: seq<Backend>, calls: seq<ToolCall>, stages: seq<Stage>,
                                   results: seq<RateLimitResult>, answers: seq<RateLimitResult>, n: nat,
                                   before: Backend, t: Stage, b: Backend, r: RateLimitResult)
      returns (all: seq<Backend>, stages': seq<Stage>, results': seq<RateLimitResult>)
    requires UpTo(states, calls, stages, results, answers, n, before) && t.call == n
    requires MayFollow(calls, stages, results, t) && Charge(before, RequestOf(calls, t), MemberOf(calls, t), b, r)
    ensures UpTo(all, calls, stages', results', answers, n, b) && all[0] == states[0] && |stages'| == |results'|
    ensures t in stages' && forall u :: u != t ==> (u in stages' <==> u in stages)
    ensures LetThrough(calls, stages', results', n)
       <==> LetThrough(calls, stages, results, n) || (t == Stage(n, calls[n].role.Visitor?) && r.allowed)
    ensures PassedBefore(stages', results', n, |stages'|)
       <==> PassedBefore(stages, results, n, |stages|) || (t == Stage(n, false) && r.allowed)
    ensures (r.allowed ==> !t.second) ==> IsTold(stages', results', n, r)
    ensures forall told :: IsTold(stages, results, n, told) ==> IsTold(stages', results', n, told)
  {
    ChargeExtends(states, calls, stages, results, t, b, r);
    AnswersStay(calls, stages, results, answers, n, t, r);
    LetThroughExtends(calls, stages, results, t, r, n);
    all, stages', results' := states + [b], stages + [t], results + [r];
    assert forall i :: 0 <= i < |stages'| ==> stages'[i] == t || (i < |stages| && stages'[i] == stages[i]);
    AllToldStays(stages, results, t, r, n);
  }

  lemma {:induction false} NothingYet(calls: seq<ToolCall>, stages: seq<Stage>, results: seq<RateLimitResult>, n: nat)
    requires |results| == |stages| && n < |calls| && CallsBelow(stages, n)
    ensures Stage(n, false) !in stages && Stage(n, true) !in stages
    ensures !LetThrough(calls, stages, results, n) && !PassedBefore(stages, results, n, |stages|)
  {
    assert forall i :: 0 <= i < |stages| ==> stages[i].call < n;
  }

  lemma {:induction false} CallExtends(states: seq<Backend>, calls: seq<ToolCall>, stages: seq<Stage>,
                                       results: seq<RateLimitResult>, answers: seq<RateLimitResult>, n: nat, b: Backend)
      returns (all: seq<Backend>, stages': seq<Stage>, results': seq<RateLimitResult>)
    requires ToolRun(states, calls, stages, results) && CallsBelow(stages, n) && n < |calls| == |answers|
    requires ToolStep(states[|stages|], calls[n], b, answers[n]) && AnswersTell(calls, stages, results, answers, n)
    ensures UpTo(all, calls, stages', results', answers, n, b) && all[0] == states[0]
    ensures answers[n].allowed <==> LetThrough(calls, stages', results', n)
    ensures IsTold(stages', results', n, answers[n])
  {
    var c, before := calls[n], states[|stages|];
    NothingYet(calls, stages, results, n);
    assert CallsBelow(stages, n + 1);
    if c.role.Visitor? {
      var mid, first :| Charge(before, c.First(), c.member, mid, first) &&
        if !first.allowed then b == mid && answers[n] == first
        else exists second :: Charge(mid, c.Second(), c.ipMember, b, second) &&
               answers[n] == if second.allowed then first else second;
      all, stages', results' :=
          OneMore(states, calls, stages, results, answers, n, before, Stage(n, false), mid, first);
      if first.allowed {
        var second :| Charge(mid, c.Second(), c.ipMember, b, second)
                      && answers[n] == if second.allowed then first else second;
        all, stages', results' := OneMore(all, calls, stages', results', answers, n, mid, Stage(n, true), b, second);
      }
    } else {
      all, stages', results' :=
          OneMore(states, calls, stages, results, answers, n, before, Stage(n, false), b, answers[n]);
    }
  }

  /** So the charges that the method makes, call after call, are such a run, with the same answers. */
  lemma {:induction false} SequentialIsToolRun(states: seq<Backend>, calls: seq<ToolCall>,
                                               answers: seq<RateLimitResult>, n: nat)
      returns (all: seq<Backend>, stages: seq<Stage>, results: seq<RateLimitResult>)
    requires SequentialRun(states, calls, answers) && n <= |calls|
    ensures ToolRun(all, calls, stages, results) && CallsBelow(stages, n)
    ensures all[0] == states[0] && all[|stages|] == states[n] && AnswersTell(calls, stages, results, answers, n)
    decreases n
  {
    if n == 0 {
      all, stages, results := [states[0]], [], [];
    } else {
      all, stages, results := SequentialIsToolRun(states, calls, answers, n - 1);
      all, stages, results := CallExtends(all, calls, stages, results, answers, n - 1, states[n]);
    }
  }
}
