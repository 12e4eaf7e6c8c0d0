/** How runs of the script are made, and two of them: one that forgets, one that displays nothing. */
module RedisWitnesses {
  import opened Common
  import opened RateLimitStore
  import opened RateLimitRuns
  import opened RateLimitPruning
  import opened RedisForgetting

  // ----- making runs

  function Kept(keys: Keyspace, q: Request): map<string, real> {
    ZRemRangeByScore(Scores(keys, q.key, q.now), q.HardCutoff())
  }

  /** The script on values. */
  function ScriptResult(keys: Keyspace, q: Request): RateLimitResult {
    Decide(ZCount(Kept(keys, q), q.SoftCutoff()), ZCount(Kept(keys, q), q.HardCutoff()), q.policy)
  }

  function ScriptKeys(keys: Keyspace, q: Request, member: string): Keyspace {
    if ScriptResult(keys, q).allowed
    then keys[q.key := SortedSet(Kept(keys, q)[member := q.now], q.now + Ttl(q.policy) as real)]
    else keys[q.key := SortedSet(Kept(keys, q), if q.key in keys then keys[q.key].expiresAt else q.now)]
  }

  lemma {:induction false} ScriptIsStep(keys: Keyspace, q: Request, member: string)
    ensures RedisStep(keys, q, member, ScriptKeys(keys, q, member), ScriptResult(keys, q))
  {
  }

  function KeysAfter(reqs: seq<Request>, members: seq<string>, n: nat): Keyspace
    requires |members| == |reqs| && n <= |reqs|
  {
    if n == 0 then map[] else ScriptKeys(KeysAfter(reqs, members, n - 1), reqs[n - 1], members[n - 1])
  }

  lemma {:induction false} MembersWereGiven(reqs: seq<Request>, members: seq<string>, n: nat, key: string, m: string)
    requires |members| == |reqs| && n <= |reqs|
    requires key in KeysAfter(reqs, members, n) && m in KeysAfter(reqs, members, n)[key].scores
    ensures exists i :: 0 <= i < n && members[i] == m
    decreases n
  {
    var before := KeysAfter(reqs, members, n - 1);
    if key in before && m in before[key].scores {
      MembersWereGiven(reqs, members, n - 1, key, m);
    } else {
      assert members[n - 1] == m;
    }
  }

  function SpacesFor(reqs: seq<Request>, members: seq<string>): (spaces: seq<Keyspace>)
    requires |members| == |reqs|
    ensures |spaces| == |reqs| + 1 && forall i :: 0 <= i <= |reqs| ==> spaces[i] == KeysAfter(reqs, members, i)
  {
    seq(|reqs| + 1, i requires 0 <= i <= |reqs| => KeysAfter(reqs, members, i))
  }

  function ResultsFor(reqs: seq<Request>, members: seq<string>): (results: seq<RateLimitResult>)
    requires |members| == |reqs|
    ensures |results| == |reqs|
    ensures forall i :: 0 <= i < |reqs| ==> results[i] == ScriptResult(KeysAfter(reqs, members, i), reqs[i])
  {
    seq(|reqs|, i requires 0 <= i < |reqs| => ScriptResult(KeysAfter(reqs, members, i), reqs[i]))
  }

  /** Any requests, with members all different, have a run. */
  lemma {:induction false} RunOfScript(reqs: seq<Request>, members: seq<string>)
      returns (spaces: seq<Keyspace>, results: seq<RateLimitResult>)
    requires |members| == |reqs| && NoDuplicates(members)
    ensures RedisRun(spaces, reqs, members, results)
  {
    spaces, results := SpacesFor(reqs, members), ResultsFor(reqs, members);
    forall i | 0 <= i < |reqs|
      ensures RedisStep(spaces[i], reqs[i], members[i], spaces[i + 1], results[i])
      ensures reqs[i].key in spaces[i] ==> members[i] !in spaces[i][reqs[i].key].scores
    {
      ScriptIsStep(spaces[i], reqs[i], members[i]);
      if reqs[i].key in spaces[i] && members[i] in spaces[i][reqs[i].key].scores {
        MembersWereGiven(reqs, members, i, reqs[i].key, members[i]);
      }
    }
  }

  /** Widening a window makes the script forget too: in this run the third request is let through, although
      two admitted times lie in its window and its limit is two. */
  lemma {:induction false} WideningForgetsInRedis(key: string, a: string, b: string, c: string)
      returns (spaces: seq<Keyspace>, reqs: seq<Request>, results: seq<RateLimitResult>)
    requires a != b && b != c && a != c
    ensures RedisRun(spaces, reqs, [a, b, c], results) && ClockForward(reqs) && |reqs| == 3
    ensures forall i :: 0 <= i < 3 ==> reqs[i].key == key && reqs[i].policy.softWindow <= reqs[i].policy.hardWindow
    ensures results[2].allowed && !RedisNothingForgotten(spaces, reqs, results, 2)
    ensures !Verdict(AdmittedTimes(reqs, results, key, 2), reqs[2], true).allowed
  {
    var narrow, wide := Policy(0, 2, 1, 1), Policy(0, 2, 1, 10);
    reqs := [Request(key, 0.0, narrow), Request(key, 5.0, narrow), Request(key, 6.0, wide)];
    spaces, results := RunOfScript(reqs, [a, b, c]);
    FirstTwoPass(spaces, reqs, [a, b, c], results);
    PassesWithOne(spaces, reqs, [a, b, c], results, 2, 5.0);
    RefusedByHistory(reqs[2]);
    RedisAnswerIsExact(spaces, reqs, [a, b, c], results, 2);
  }

  ghost predicate IsWidening(reqs: seq<Request>) {
    && |reqs| == 3 && reqs[0].key == reqs[1].key == reqs[2].key
    && reqs[0].now == 0.0 && reqs[1].now == 5.0 && reqs[2].now == 6.0
    && reqs[0].policy == reqs[1].policy == Policy(0, 2, 1, 1) && reqs[2].policy == Policy(0, 2, 1, 10)
  }

  /** An allowed request needs fewer than two entries in the log. */
  lemma {:induction false} PassesBelowTwo(spaces: seq<Keyspace>, reqs: seq<Request>, members: seq<string>,
                                          results: seq<RateLimitResult>, i: nat, kept: seq<real>)
    requires RedisRun(spaces, reqs, members, results) && ClockForward(reqs) && i < |reqs|
    requires reqs[i].policy.softLimit == 0 && reqs[i].policy.hardLimit == 2
    requires var log := Survivors(reqs, results, RedisCuts(spaces, reqs), reqs[i].key, i);
             kept == After(log, RedisCut(spaces[i], reqs[i]))
    requires |kept| <= 1 && forall k :: 0 <= k < |kept| ==> kept[k] != reqs[i].HardCutoff()
    ensures results[i].allowed
  {
    AnswerFromSet(spaces, reqs, members, results, i);
    BelowTwo(kept, reqs[i], results[i]);
  }

  lemma {:induction false} BelowTwo(kept: seq<real>, q: Request, r: RateLimitResult)
    requires AnswersFrom(kept, q, r) && q.policy.softLimit == 0 && q.policy.hardLimit == 2
    requires |kept| <= 1 && forall k :: 0 <= k < |kept| ==> kept[k] != q.HardCutoff()
    ensures r.allowed
  {
    NothingAt(kept, q.HardCutoff());
    AfterShorter(kept, q.HardCutoff());
  }

  lemma {:induction false} AfterShorter(log: seq<real>, c: real)
    ensures |After(log, c)| <= |log|
  {
    if log != [] {
      AfterShorter(log[..|log| - 1], c);
    }
  }

  lemma {:induction false} FirstTwoPass(spaces: seq<Keyspace>, reqs: seq<Request>, members: seq<string>,
                                        results: seq<RateLimitResult>)
    requires RedisRun(spaces, reqs, members, results) && IsWidening(reqs)
    ensures results[0].allowed && results[1].allowed
    ensures Survivors(reqs, results, RedisCuts(spaces, reqs), reqs[0].key, 2) == [5.0]
    ensures AdmittedTimes(reqs, results, reqs[0].key, 2) == [0.0, 5.0]
  {
    var cuts, key := RedisCuts(spaces, reqs), reqs[0].key;
    PassesBelowTwo(spaces, reqs, members, results, 0, []);
    assert Survivors(reqs, results, cuts, key, 1) == [0.0] && AdmittedTimes(reqs, results, key, 1) == [0.0] by {
      assert [] + [0.0] == [0.0];
    }
    AfterOne(0.0, cuts[1]);
    PassesBelowTwo(spaces, reqs, members, results, 1, []);
    assert [] + [5.0] == [5.0];
  }

  /** With one entry left, and not on the cutoff, a request passes under a limit of two. */
  lemma {:induction false} PassesWithOne(spaces: seq<Keyspace>, reqs: seq<Request>, members: seq<string>,
                                         results: seq<RateLimitResult>, i: nat, t: real)
    requires RedisRun(spaces, reqs, members, results) && ClockForward(reqs) && i < |reqs|
    requires reqs[i].policy.softLimit == 0 && reqs[i].policy.hardLimit == 2 && t != reqs[i].HardCutoff()
    requires Survivors(reqs, results, RedisCuts(spaces, reqs), reqs[i].key, i) == [t]
    ensures results[i].allowed
  {
    AfterOne(t, RedisCut(spaces[i], reqs[i]));
    PassesBelowTwo(spaces, reqs, members, results, i, After([t], RedisCut(spaces[i], reqs[i])));
  }

  lemma {:induction false} RefusedByHistory(q: Request)
    requires q.now == 6.0 && q.policy == Policy(0, 2, 1, 10)
    ensures !Verdict([0.0, 5.0], q, true).allowed
  {
    AfterTwo(0.0, 5.0, 6.0 - 10.0);
  }

  /** With Redis selected, a request is let through and the count displayed for its key stays zero. */
  lemma {:induction false} RedisShowsNothing(key: string, member: string, now: real, window: int)
      returns (states: seq<Backend>, reqs: seq<Request>, results: seq<RateLimitResult>)
    requires window > 0
    ensures LimiterRun(states, reqs, [member], results) && !states[0].inMemory
    ensures |reqs| == 1 && results[0].allowed && AdmittedTimes(reqs, results, key, 1) == [now]
    ensures Displayed(states[1].store, key, window, now) == 0
  {
    reqs := [Request(key, now, Policy(1, 200, 1, window))];
    var spaces;
    spaces, results := RunOfScript(reqs, [member]);
    states := [Backend(false, map[], spaces[0]), Backend(false, map[], spaces[1])];
    assert RedisStep(spaces[0], reqs[0], member, spaces[1], results[0]);
    var none: map<string, real> := map[];
    assert Kept(map[], reqs[0]) == none;
    NothingHolds(map[], []);
    HeldCount(none, [], reqs[0].SoftCutoff());
    HeldCount(none, [], reqs[0].HardCutoff());
    assert [] + [now] == [now];
  }
}
