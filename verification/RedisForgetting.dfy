/** When pruning and expiry show in Redis: for every run of the script, exactly which answers still equal
    those of a limiter that keeps every admitted time. */
module RedisForgetting {
  import opened RateLimitStore
  import opened RateLimitRuns
  import opened RateLimitPruning

  /** Up to where a request discards what the key holds: its hard cutoff, or everything if the key has expired. */
  function RedisCut(keys: Keyspace, q: Request): real {
    if q.key in keys && q.now < keys[q.key].expiresAt then q.HardCutoff() else Later(q.now, q.HardCutoff())
  }

  function RedisCuts(spaces: seq<Keyspace>, reqs: seq<Request>): (cuts: seq<real>)
    requires |spaces| == |reqs| + 1
    ensures |cuts| == |reqs| && forall i :: 0 <= i < |reqs| ==> cuts[i] == RedisCut(spaces[i], reqs[i])
  {
    seq(|reqs|, i requires 0 <= i < |reqs| => RedisCut(spaces[i], reqs[i]))
  }

  ghost predicate ClockForward(reqs: seq<Request>) {
    forall i, j :: 0 <= i < j < |reqs| ==> reqs[i].now <= reqs[j].now
  }

  /** A sorted set holds these times, no matter under which members. */
  ghost predicate Holds(scores: map<string, real>, log: seq<real>) {
    forall c :: ScoresMatch(scores, log, c)
  }

  ghost predicate KeyHolds(keys: Keyspace, key: string, log: seq<real>) {
    if key in keys then Holds(keys[key].scores, log) else log == []
  }

  lemma {:induction false} CountAtAfter(log: seq<real>, lo: real, t: real)
    ensures CountAt(After(log, lo), t) == if t > lo then CountAt(log, t) else 0
  {
    if log != [] {
      CountAtAfter(log[..|log| - 1], lo, t);
      AfterSnoc(After(log[..|log| - 1], lo), log[|log| - 1], t);
    }
  }

  lemma {:induction false} PrunedHolds(scores: map<string, real>, log: seq<real>, h: real)
    requires Holds(scores, log)
    ensures Holds(ZRemRangeByScore(scores, h), After(log, h))
  {
    forall c
      ensures ScoresMatch(ZRemRangeByScore(scores, h), After(log, h), c)
    {
      assert ScoresMatch(scores, log, Later(h, c)) && ScoresMatch(scores, log, c);
      assert Above(ZRemRangeByScore(scores, h), c) == Above(scores, Later(h, c));
      assert At(ZRemRangeByScore(scores, h), c) == if c > h then At(scores, c) else {};
      AfterTwice(log, h, c);
      CountAtAfter(log, h, c);
    }
  }

  lemma {:induction false} NothingHolds(scores: map<string, real>, log: seq<real>)
    requires scores == map[] && log == []
    ensures Holds(scores, log)
  {
    forall c: real
      ensures ScoresMatch(scores, log, c)
    {
      NothingMatches(scores, log, c);
    }
  }

  lemma {:induction false} NothingMatches(scores: map<string, real>, log: seq<real>, c: real)
    requires scores == map[] && log == []
    ensures ScoresMatch(scores, log, c)
  {
    assert Above(scores, c) == {} && At(scores, c) == {};
  }

  lemma {:induction false} AddedHolds(scores: map<string, real>, log: seq<real>, member: string, t: real)
    requires Holds(scores, log) && member !in scores
    ensures Holds(scores[member := t], log + [t])
  {
    var more, longer := scores[member := t], log + [t];
    forall c
      ensures ScoresMatch(more, longer, c)
    {
      assert ScoresMatch(scores, log, c);
      AddedScore(scores, member, t, c);
      AfterSnoc(log, t, c);
    }
  }

  /** What the script counts, expired or not, is what its cut leaves. */
  lemma {:induction false} ScriptSees(keys: Keyspace, q: Request, log: seq<real>)
    requires KeyHolds(keys, q.key, log) && forall k :: 0 <= k < |log| ==> log[k] <= q.now
    ensures Holds(ZRemRangeByScore(Scores(keys, q.key, q.now), q.HardCutoff()), After(log, RedisCut(keys, q)))
  {
    if q.key in keys && q.now < keys[q.key].expiresAt {
      PrunedHolds(keys[q.key].scores, log, q.HardCutoff());
    } else {
      NothingAfter(log, RedisCut(keys, q));
      NothingHolds(map[], []);
      assert ZRemRangeByScore(map[], q.HardCutoff()) == map[];
    }
  }

  /** Entries of a log are not ahead of the requests that made it. */
  lemma {:induction false} NothingAhead(reqs: seq<Request>, results: seq<RateLimitResult>, cuts: seq<real>, key: string,
                                        n: nat, now: real)
    requires |results| == |cuts| == |reqs| && n <= |reqs|
    requires forall i {:trigger reqs[i]} :: 0 <= i < n ==> reqs[i].now <= now
    ensures forall k :: 0 <= k < |Survivors(reqs, results, cuts, key, n)| ==>
              Survivors(reqs, results, cuts, key, n)[k] <= now
    decreases n
  {
    if n != 0 {
      NothingAhead(reqs, results, cuts, key, n - 1, now);
      AfterIsPart(Survivors(reqs, results, cuts, key, n - 1), cuts[n - 1], now);
    }
  }

  lemma {:induction false} AfterIsPart(log: seq<real>, c: real, now: real)
    requires forall k :: 0 <= k < |log| ==> log[k] <= now
    ensures forall k :: 0 <= k < |After(log, c)| ==> After(log, c)[k] <= now
  {
    if log != [] {
      AfterIsPart(log[..|log| - 1], c, now);
    }
  }

  /** The sorted set of a key holds what its requests have left. */
  lemma {:induction false} SetIsSurvivors(spaces: seq<Keyspace>, reqs: seq<Request>, members: seq<string>,
                                          results: seq<RateLimitResult>, key: string, n: nat)
    requires RedisRun(spaces, reqs, members, results) && ClockForward(reqs) && n <= |reqs|
    ensures KeyHolds(spaces[n], key, Survivors(reqs, results, RedisCuts(spaces, reqs), key, n))
    decreases n
  {
    if n != 0 {
      SetIsSurvivors(spaces, reqs, members, results, key, n - 1);
      assert RedisStep(spaces[n - 1], reqs[n - 1], members[n - 1], spaces[n], results[n - 1]);
      if reqs[n - 1].key == key {
        SetStep(spaces, reqs, members, results, n - 1);
      }
    }
  }

  lemma {:induction false} SetStep(spaces: seq<Keyspace>, reqs: seq<Request>, members: seq<string>,
                                   results: seq<RateLimitResult>, n: nat)
    requires RedisRun(spaces, reqs, members, results) && ClockForward(reqs) && n < |reqs|
    requires KeyHolds(spaces[n], reqs[n].key, Survivors(reqs, results, RedisCuts(spaces, reqs), reqs[n].key, n))
    ensures KeyHolds(spaces[n + 1], reqs[n].key, Survivors(reqs, results, RedisCuts(spaces, reqs), reqs[n].key, n + 1))
  {
    var cuts, q := RedisCuts(spaces, reqs), reqs[n];
    var log := Survivors(reqs, results, cuts, q.key, n);
    NothingAhead(reqs, results, cuts, q.key, n, q.now);
    ScriptSees(spaces[n], q, log);
    assert RedisStep(spaces[n], q, members[n], spaces[n + 1], results[n]);
    SurvivorsStep(reqs, results, cuts, q.key, n + 1);
    var kept := ZRemRangeByScore(Scores(spaces[n], q.key, q.now), q.HardCutoff());
    if results[n].allowed {
      AddedHolds(kept, After(log, cuts[n]), members[n], q.now);
    } else {
      assert After(log, cuts[n]) + [] == After(log, cuts[n]);
    }
  }

  /** The answer of the script when these times are left. */
  ghost predicate AnswersFrom(kept: seq<real>, q: Request, r: RateLimitResult) {
    r == Decide(|After(kept, q.SoftCutoff())| + CountAt(kept, q.SoftCutoff()),
                |After(kept, q.HardCutoff())| + CountAt(kept, q.HardCutoff()), q.policy)
  }

  /** An answer as it is counted from what is left. */
  lemma {:induction false} AnswerFromSet(spaces: seq<Keyspace>, reqs: seq<Request>, members: seq<string>,
                                         results: seq<RateLimitResult>, i: nat)
    requires RedisRun(spaces, reqs, members, results) && ClockForward(reqs) && i < |reqs|
    ensures var log := Survivors(reqs, results, RedisCuts(spaces, reqs), reqs[i].key, i);
            AnswersFrom(After(log, RedisCut(spaces[i], reqs[i])), reqs[i], results[i])
  {
    var q, log := reqs[i], Survivors(reqs, results, RedisCuts(spaces, reqs), reqs[i].key, i);
    SetIsSurvivors(spaces, reqs, members, results, q.key, i);
    NothingAhead(reqs, results, RedisCuts(spaces, reqs), q.key, i, q.now);
    assert RedisStep(spaces[i], q, members[i], spaces[i + 1], results[i]);
    ScriptAnswers(spaces[i], q, members[i], spaces[i + 1], results[i], log);
  }

  lemma {:induction false} ScriptAnswers(keys: Keyspace, q: Request, member: string, keys': Keyspace,
                                         r: RateLimitResult, log: seq<real>)
    requires RedisStep(keys, q, member, keys', r)
    requires KeyHolds(keys, q.key, log) && forall k :: 0 <= k < |log| ==> log[k] <= q.now
    ensures AnswersFrom(After(log, RedisCut(keys, q)), q, r)
  {
    var scores := ZRemRangeByScore(Scores(keys, q.key, q.now), q.HardCutoff());
    ScriptSees(keys, q, log);
    HeldCount(scores, After(log, RedisCut(keys, q)), q.SoftCutoff());
    HeldCount(scores, After(log, RedisCut(keys, q)), q.HardCutoff());
  }

  lemma {:induction false} HeldCount(scores: map<string, real>, log: seq<real>, c: real)
    requires Holds(scores, log)
    ensures ZCount(scores, c) == |After(log, c)| + CountAt(log, c)
  {
    ZCountSplits(scores, c);
    assert ScoresMatch(scores, log, c);
  }

  // ----- the exact condition

  /** Nothing the i-th request should count has been forgotten: no admitted time after its hard cutoff was
      pruned earlier or lost when the key expired, and none lies between a soft cutoff and a hard one that
      comes after it. */
  ghost predicate RedisNothingForgotten(spaces: seq<Keyspace>, reqs: seq<Request>, results: seq<RateLimitResult>,
                                        i: nat)
    requires |results| == |reqs| && |spaces| == |reqs| + 1 && i < |reqs|
  {
    && NonePruned(reqs, results, RedisCuts(spaces, reqs), reqs[i].key, i + 1, reqs[i].HardCutoff())
    && NoneIn(reqs, results, reqs[i].key, i, reqs[i].SoftCutoff(), reqs[i].HardCutoff())
  }

  /** In every run of the script under a clock that does not go back, whatever the windows of a key and
      however its deadline moves, an answer is that of all times admitted so far if and only if nothing it
      should count has been forgotten. */
  lemma {:induction false} RedisAnswerIsExact(spaces: seq<Keyspace>, reqs: seq<Request>, members: seq<string>,
                                              results: seq<RateLimitResult>, i: nat)
    requires RedisRun(spaces, reqs, members, results) && ClockForward(reqs) && i < |reqs|
    ensures results[i] == Verdict(AdmittedTimes(reqs, results, reqs[i].key, i), reqs[i], true)
       <==> RedisNothingForgotten(spaces, reqs, results, i)
  {
    var q, cuts := reqs[i], RedisCuts(spaces, reqs);
    var h, s := q.HardCutoff(), q.SoftCutoff();
    AnswerFromSet(spaces, reqs, members, results, i);
    BothCountsAreExact(reqs, results, cuts, i, h, s);
  }

  lemma {:induction false} BothCountsAreExact(reqs: seq<Request>, results: seq<RateLimitResult>, cuts: seq<real>,
                                              i: nat, h: real, s: real)
    requires |results| == |cuts| == |reqs| && i < |reqs| && h <= cuts[i]
    ensures var kept := After(Survivors(reqs, results, cuts, reqs[i].key, i), cuts[i]);
            var times := AdmittedTimes(reqs, results, reqs[i].key, i);
            (|After(kept, s)| + CountAt(kept, s) == |After(times, s)| + (if h < s then CountAt(times, s) else 0)
             && |After(kept, h)| + CountAt(kept, h) == |After(times, h)|)
            <==> (NonePruned(reqs, results, cuts, reqs[i].key, i + 1, h) && NoneIn(reqs, results, reqs[i].key, i, s, h))
  {
    var key := reqs[i].key;
    NonePrunedStep(reqs, results, cuts, key, i + 1, h, cuts[i]);
    HardCountIsExact(reqs, results, cuts, key, i, h, cuts[i]);
    if h <= s {
      EmptyInterval(AdmittedTimes(reqs, results, key, i), s);
      CountInSplits(AdmittedTimes(reqs, results, key, i), s, h, s);
      if NonePruned(reqs, results, cuts, key, i + 1, h) {
        SoftCountIsExact(reqs, results, cuts, key, i, h, cuts[i], s);
      }
    } else {
      HardCountIsExact(reqs, results, cuts, key, i, s, cuts[i]);
      CountInSplits(AdmittedTimes(reqs, results, key, i), s, h, cuts[i]);
    }
  }

  lemma {:induction false} HardCountIsExact(reqs: seq<Request>, results: seq<RateLimitResult>, cuts: seq<real>,
                                            key: string, i: nat, h: real, cut: real)
    requires |results| == |cuts| == |reqs| && i <= |reqs| && h <= cut
    ensures var kept := After(Survivors(reqs, results, cuts, key, i), cut);
            (|After(kept, h)| + CountAt(kept, h) == |After(AdmittedTimes(reqs, results, key, i), h)|)
            <==> (NonePruned(reqs, results, cuts, key, i, cut) && NoneIn(reqs, results, key, i, h, cut))
  {
    var log := Survivors(reqs, results, cuts, key, i);
    AfterTwice(log, cut, h);
    CountAtAfter(log, cut, h);
    SurvivorsCount(reqs, results, cuts, key, i, cut);
    RaisedCutoff(AdmittedTimes(reqs, results, key, i), h, cut);
  }

  lemma {:induction false} SoftCountIsExact(reqs: seq<Request>, results: seq<RateLimitResult>, cuts: seq<real>,
                                            key: string, i: nat, h: real, cut: real, s: real)
    requires |results| == |cuts| == |reqs| && i <= |reqs| && h <= cut && h <= s
    requires NonePruned(reqs, results, cuts, key, i, cut) && NoneIn(reqs, results, key, i, h, cut)
    ensures var kept, times := After(Survivors(reqs, results, cuts, key, i), cut), AdmittedTimes(reqs, results, key, i);
            |After(kept, s)| + CountAt(kept, s) == |After(times, s)| + if h < s then CountAt(times, s) else 0
  {
    var log, times := Survivors(reqs, results, cuts, key, i), AdmittedTimes(reqs, results, key, i);
    SurvivorsSame(reqs, results, cuts, key, i, cut);
    NothingBetween(times, h, cut);
    assert After(log, cut) == After(times, h);
    AfterTwice(times, h, s);
    CountAtAfter(times, h, s);
  }

  // ----- deadlines

  /** The last of the first `n` requests to be let through for a key. */
  ghost predicate IsLastPassed(reqs: seq<Request>, results: seq<RateLimitResult>, key: string, n: nat, i: nat)
    requires |results| == |reqs| && n <= |reqs|
  {
    && i < n && reqs[i].key == key && results[i].allowed
    && forall k :: i < k < n && reqs[k].key == key ==> !results[k].allowed
  }

  /** In every run the deadline of a key is set by the last request let through, and by no refusal: twice its
      hard window later, and two hours at least. */
  lemma {:induction false} DeadlineMeaning(spaces: seq<Keyspace>, reqs: seq<Request>, members: seq<string>,
                                           results: seq<RateLimitResult>, key: string, n: nat, i: nat)
    requires RedisRun(spaces, reqs, members, results) && n <= |reqs| && IsLastPassed(reqs, results, key, n, i)
    ensures key in spaces[n]
    ensures var seconds := if reqs[i].policy.hardWindow > 3600 then 2 * reqs[i].policy.hardWindow else 7200;
            spaces[n][key].expiresAt == reqs[i].now + seconds as real
    decreases n
  {
    assert RedisStep(spaces[n - 1], reqs[n - 1], members[n - 1], spaces[n], results[n - 1]);
    if i < n - 1 {
      DeadlineMeaning(spaces, reqs, members, results, key, n - 1, i);
    }
  }
}
