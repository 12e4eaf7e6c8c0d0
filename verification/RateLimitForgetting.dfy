/** When pruning shows: for every run of the in-memory store, exactly which answers still equal those of
    a limiter that keeps every admitted time, and which counts read afterwards do. */
module RateLimitForgetting {
  import opened Common
  import opened RateLimitStore
  import opened RateLimitRuns
  import opened RateLimitPruning

  /** The in-memory store prunes at the hard cutoff of each request. */
  function Cutoffs(reqs: seq<Request>): (cuts: seq<real>)
    ensures |cuts| == |reqs| && forall i :: 0 <= i < |reqs| ==> cuts[i] == reqs[i].HardCutoff()
  {
    seq(|reqs|, i requires 0 <= i < |reqs| => reqs[i].HardCutoff())
  }

  lemma {:induction false} LogIsSurvivors(stores: seq<Store>, reqs: seq<Request>, results: seq<RateLimitResult>,
                                          key: string, n: nat)
    requires MemoryRun(stores, reqs, results) && n <= |reqs|
    ensures LogIn(stores[n], key) == Survivors(reqs, results, Cutoffs(reqs), key, n)
  {
    if n != 0 {
      LogIsSurvivors(stores, reqs, results, key, n - 1);
      assert StoreStep(stores[n - 1], reqs[n - 1], stores[n], results[n - 1]);
    }
  }

  // ----- the exact condition

  /** Nothing the i-th request should count has been forgotten: no admitted time after its hard cutoff was
      pruned earlier, and none lies between a soft cutoff and a hard one that comes after it. */
  ghost predicate NothingForgotten(reqs: seq<Request>, results: seq<RateLimitResult>, i: nat)
    requires |results| == |reqs| && i < |reqs|
  {
    && NonePruned(reqs, results, Cutoffs(reqs), reqs[i].key, i, reqs[i].HardCutoff())
    && NoneIn(reqs, results, reqs[i].key, i, reqs[i].SoftCutoff(), reqs[i].HardCutoff())
  }

  /** Both counts can be read off a result. */
  lemma {:induction false} CountsAreTold(soft: nat, hard: nat, soft': nat, hard': nat, policy: Policy)
    ensures Decide(soft, hard, policy) == Decide(soft', hard', policy) <==> soft == soft' && hard == hard'
  {
  }

  /** An answer as it is counted from what is left. */
  lemma {:induction false} AnswerFromSurvivors(stores: seq<Store>, reqs: seq<Request>, results: seq<RateLimitResult>,
                                               i: nat)
    requires MemoryRun(stores, reqs, results) && i < |reqs|
    ensures var kept, h := Survivors(reqs, results, Cutoffs(reqs), reqs[i].key, i), reqs[i].HardCutoff();
            results[i] == Decide(|After(kept, Later(h, reqs[i].SoftCutoff()))|, |After(kept, h)|, reqs[i].policy)
  {
    LogIsSurvivors(stores, reqs, results, reqs[i].key, i);
    assert StoreStep(stores[i], reqs[i], stores[i + 1], results[i]);
    AfterTwice(Survivors(reqs, results, Cutoffs(reqs), reqs[i].key, i), reqs[i].HardCutoff(), reqs[i].SoftCutoff());
  }

  /** Both counts are right exactly when nothing has been forgotten. */
  lemma {:induction false} CountsAreExact(reqs: seq<Request>, results: seq<RateLimitResult>, key: string, i: nat,
                                          h: real, s: real)
    requires |results| == |reqs| && i <= |reqs|
    ensures var kept, times := Survivors(reqs, results, Cutoffs(reqs), key, i), AdmittedTimes(reqs, results, key, i);
            (|After(kept, Later(h, s))| == |After(times, s)| && |After(kept, h)| == |After(times, h)|)
            <==> (NonePruned(reqs, results, Cutoffs(reqs), key, i, h) && NoneIn(reqs, results, key, i, s, h))
  {
    var times, m := AdmittedTimes(reqs, results, key, i), Later(h, s);
    SurvivorsCount(reqs, results, Cutoffs(reqs), key, i, h);
    SurvivorsCount(reqs, results, Cutoffs(reqs), key, i, m);
    RaisedCutoff(times, s, m);
    if NonePruned(reqs, results, Cutoffs(reqs), key, i, h) {
      RaiseFloor(reqs, results, Cutoffs(reqs), key, i, h, m);
    }
    EmptyInterval(times, s);
    CountInSplits(times, s, h, s);
  }

  /** In every run of the in-memory store, without any assumption on clocks and windows, an answer is that
      of all times admitted so far if and only if nothing it should count has been forgotten. */
  lemma {:induction false} AnswerIsExact(stores: seq<Store>, reqs: seq<Request>, results: seq<RateLimitResult>, i: nat)
    requires MemoryRun(stores, reqs, results) && i < |reqs|
    ensures results[i] == Verdict(AdmittedTimes(reqs, results, reqs[i].key, i), reqs[i], false)
       <==> NothingForgotten(reqs, results, i)
  {
    var q := reqs[i];
    var h, s := q.HardCutoff(), q.SoftCutoff();
    var kept, times := Survivors(reqs, results, Cutoffs(reqs), q.key, i), AdmittedTimes(reqs, results, q.key, i);
    AnswerFromSurvivors(stores, reqs, results, i);
    CountsAreTold(|After(kept, Later(h, s))|, |After(kept, h)|, |After(times, s)|, |After(times, h)|, q.policy);
    CountsAreExact(reqs, results, q.key, i, h, s);
  }

  // ----- the counts displayed

  /** A count displayed for a key is read from memory.  When the in-memory store is selected, it is that of
      all admitted times in the window from `start` if and only if none of them has been pruned ... */
  lemma {:induction false} DisplayedCounts(states: seq<Backend>, reqs: seq<Request>, members: seq<string>,
                                           results: seq<RateLimitResult>, key: string, window: int, now: real,
                                           start: real)
    requires LimiterRun(states, reqs, members, results) && states[0].inMemory && start == now - window as real
    ensures Displayed(states[|reqs|].store, key, window, now)
              == |After(AdmittedTimes(reqs, results, key, |reqs|), start)|
       <==> NonePruned(reqs, results, Cutoffs(reqs), key, |reqs|, start)
  {
    LimiterRunIsStoreRun(states, reqs, members, results);
    CountsInMemory(StoresOf(states), reqs, results, key, start);
    DisplayedFrom(states[|reqs|].store, key, window, now, start);
  }

  lemma {:induction false} DisplayedFrom(store: Store, key: string, window: int, now: real, start: real)
    requires start == now - window as real
    ensures Displayed(store, key, window, now) == |After(LogIn(store, key), start)|
  {
  }

  /** ... and with Redis it is zero, whatever was admitted. */
  lemma {:induction false} NothingDisplayed(states: seq<Backend>, reqs: seq<Request>, members: seq<string>,
                                            results: seq<RateLimitResult>, key: string, window: int, now: real)
    requires LimiterRun(states, reqs, members, results) && !states[0].inMemory
    ensures Displayed(states[|reqs|].store, key, window, now) == 0
  {
    OneStoreIsUsed(states, reqs, members, results, |reqs|);
  }

  lemma {:induction false} CountsInMemory(stores: seq<Store>, reqs: seq<Request>, results: seq<RateLimitResult>,
                                          key: string, c: real)
    requires MemoryRun(stores, reqs, results)
    ensures |After(LogIn(stores[|reqs|], key), c)| == |After(AdmittedTimes(reqs, results, key, |reqs|), c)|
       <==> NonePruned(reqs, results, Cutoffs(reqs), key, |reqs|, c)
  {
    LogIsSurvivors(stores, reqs, results, key, |reqs|);
    SurvivorsCount(reqs, results, Cutoffs(reqs), key, |reqs|, c);
  }

  // ----- the condition with a clock that runs forward

  /** The clock does not go back and windows are positive. */
  ghost predicate Forward(reqs: seq<Request>) {
    && (forall i, j :: 0 <= i < j < |reqs| ==> reqs[i].now <= reqs[j].now)
    && (forall i {:trigger reqs[i]} :: 0 <= i < |reqs| ==> reqs[i].policy.hardWindow > 0)
  }

  /** The largest hard cutoff applied to a key by the first `n` requests. */
  function Applied(reqs: seq<Request>, key: string, n: nat): Option<real>
    requires n <= |reqs|
  {
    if n == 0 then None
    else
      var before := Applied(reqs, key, n - 1);
      if reqs[n - 1].key != key then before
      else if before.None? then Some(reqs[n - 1].HardCutoff())
      else Some(Later(before.value, reqs[n - 1].HardCutoff()))
  }

  lemma {:induction false} AppliedIsLargest(reqs: seq<Request>, key: string, n: nat)
    requires n <= |reqs|
    ensures forall l {:trigger reqs[l]} :: 0 <= l < n && reqs[l].key == key ==>
              Applied(reqs, key, n).Some? && reqs[l].HardCutoff() <= Applied(reqs, key, n).value
    ensures Applied(reqs, key, n).Some? ==>
              exists l :: 0 <= l < n && reqs[l].key == key && reqs[l].HardCutoff() == Applied(reqs, key, n).value
  {
    if n != 0 {
      AppliedIsLargest(reqs, key, n - 1);
    }
  }

  /** Then what has been forgotten is an interval: the admitted times after `c` up to the largest cutoff
      applied so far. */
  lemma {:induction false} ForgottenIsInterval(reqs: seq<Request>, results: seq<RateLimitResult>, key: string, n: nat,
                                               c: real)
    requires |results| == |reqs| && n <= |reqs| && Forward(reqs)
    ensures NonePruned(reqs, results, Cutoffs(reqs), key, n, c)
       <==> Applied(reqs, key, n).None? || NoneIn(reqs, results, key, n, c, Applied(reqs, key, n).value)
  {
    AppliedIsLargest(reqs, key, n);
    if Applied(reqs, key, n).Some? {
      var m := Applied(reqs, key, n).value;
      if NonePruned(reqs, results, Cutoffs(reqs), key, n, c) {
        var l :| 0 <= l < n && reqs[l].key == key && reqs[l].HardCutoff() == m;
        assert NoneIn(reqs, results, key, l, c, reqs[l].HardCutoff());
        forall j | l <= j < n
          ensures reqs[j].now > m
        {
          assert reqs[l].policy.hardWindow > 0;
        }
        CountInGrows(reqs, results, key, l, n, c, m);
      }
      if NoneIn(reqs, results, key, n, c, m) {
        forall l | 0 <= l < n && reqs[l].key == key
          ensures NoneIn(reqs, results, key, l, c, reqs[l].HardCutoff())
        {
          CountInGrows(reqs, results, key, l, n, c, m);
          CountInSplits(AdmittedTimes(reqs, results, key, l), c, reqs[l].HardCutoff(), m);
        }
      }
    }
  }

  /** With a forward clock and a soft window no longer than the hard one, an answer is that of all admitted
      times if and only if none of them lies between its hard cutoff and the largest one applied before. */
  lemma {:induction false} AnswerIsExactForward(stores: seq<Store>, reqs: seq<Request>, results: seq<RateLimitResult>,
                                                i: nat)
    requires MemoryRun(stores, reqs, results) && i < |reqs| && Forward(reqs)
    requires reqs[i].policy.softWindow <= reqs[i].policy.hardWindow
    ensures results[i] == Verdict(AdmittedTimes(reqs, results, reqs[i].key, i), reqs[i], false)
       <==> Applied(reqs, reqs[i].key, i).None?
            || NoneIn(reqs, results, reqs[i].key, i, reqs[i].HardCutoff(), Applied(reqs, reqs[i].key, i).value)
  {
    AnswerIsExact(stores, reqs, results, i);
    EmptyInterval(AdmittedTimes(reqs, results, reqs[i].key, i), reqs[i].SoftCutoff());
    CountInSplits(AdmittedTimes(reqs, results, reqs[i].key, i), reqs[i].SoftCutoff(), reqs[i].HardCutoff(),
                  reqs[i].SoftCutoff());
    ForgottenIsInterval(reqs, results, reqs[i].key, i, reqs[i].HardCutoff());
  }

  // ----- witnesses

  /** The log of the only key in use. */
  function LogAfter(reqs: seq<Request>, n: nat): seq<real>
    requires n <= |reqs|
  {
    if n == 0 then [] else CheckLog(LogAfter(reqs, n - 1), reqs[n - 1]).0
  }

  function StoreOf(key: string, reqs: seq<Request>, n: nat): Store
    requires n <= |reqs|
  {
    if n == 0 then map[] else map[key := LogAfter(reqs, n)]
  }

  lemma {:induction false} OneKeyStep(key: string, reqs: seq<Request>, i: nat)
    requires i < |reqs| && reqs[i].key == key
    ensures StoreStep(StoreOf(key, reqs, i), reqs[i], StoreOf(key, reqs, i + 1), CheckLog(LogAfter(reqs, i), reqs[i]).1)
  {
    assert LogIn(StoreOf(key, reqs, i), key) == LogAfter(reqs, i);
    assert LogIn(StoreOf(key, reqs, i + 1), key) == LogAfter(reqs, i + 1);
    forall k | k != key
      ensures LogIn(StoreOf(key, reqs, i + 1), k) == LogIn(StoreOf(key, reqs, i), k)
    {
    }
  }

  function StoresFor(reqs: seq<Request>, key: string): (stores: seq<Store>)
    ensures |stores| == |reqs| + 1 && forall i :: 0 <= i <= |reqs| ==> stores[i] == StoreOf(key, reqs, i)
  {
    seq(|reqs| + 1, i requires 0 <= i <= |reqs| => StoreOf(key, reqs, i))
  }

  function ResultsFor(reqs: seq<Request>): (results: seq<RateLimitResult>)
    ensures |results| == |reqs| && forall i :: 0 <= i < |reqs| ==> results[i] == CheckLog(LogAfter(reqs, i), reqs[i]).1
  {
    seq(|reqs|, i requires 0 <= i < |reqs| => CheckLog(LogAfter(reqs, i), reqs[i]).1)
  }

  /** Any requests for one key have a run. */
  lemma {:induction false} RunOfOneKey(reqs: seq<Request>, key: string)
      returns (stores: seq<Store>, results: seq<RateLimitResult>)
    requires forall i :: 0 <= i < |reqs| ==> reqs[i].key == key
    ensures MemoryRun(stores, reqs, results)
    ensures forall i :: 0 <= i < |reqs| ==> results[i] == CheckLog(LogAfter(reqs, i), reqs[i]).1
  {
    stores, results := StoresFor(reqs, key), ResultsFor(reqs);
    forall i | 0 <= i < |reqs|
      ensures StoreStep(stores[i], reqs[i], stores[i + 1], results[i])
    {
      OneKeyStep(key, reqs, i);
    }
  }

  /** Widening the window of a key is such a case: in this run the third request is let through, although
      two admitted times lie in its window and its limit is two. */
  lemma {:induction false} WideningForgets(key: string)
      returns (stores: seq<Store>, reqs: seq<Request>, results: seq<RateLimitResult>)
    ensures MemoryRun(stores, reqs, results) && Forward(reqs) && |reqs| == 3
    ensures forall i :: 0 <= i < 3 ==> reqs[i].key == key && reqs[i].policy.softWindow <= reqs[i].policy.hardWindow
    ensures results[2].allowed && !NothingForgotten(reqs, results, 2)
    ensures !Verdict(AdmittedTimes(reqs, results, key, 2), reqs[2], false).allowed
  {
    stores, reqs, results := WideningRun(key);
    WideningTimes(reqs, results, key);
    RefusedByTimes(reqs[2]);
    OnlyByForgetting(stores, reqs, results, 2);
  }

  /** A request let through that all admitted times would refuse: something has been forgotten. */
  lemma {:induction false} OnlyByForgetting(stores: seq<Store>, reqs: seq<Request>, results: seq<RateLimitResult>,
                                            i: nat)
    requires MemoryRun(stores, reqs, results) && i < |reqs| && results[i].allowed
    requires !Verdict(AdmittedTimes(reqs, results, reqs[i].key, i), reqs[i], false).allowed
    ensures !NothingForgotten(reqs, results, i)
  {
    AnswerIsExact(stores, reqs, results, i);
  }

  lemma {:induction false} WideningRun(key: string)
      returns (stores: seq<Store>, reqs: seq<Request>, results: seq<RateLimitResult>)
    ensures MemoryRun(stores, reqs, results) && Forward(reqs) && IsWidening(reqs)
    ensures reqs[0].key == reqs[1].key == reqs[2].key == key
    ensures results[0].allowed && results[1].allowed && results[2].allowed
  {
    var narrow, wide := Policy(0, 2, 1, 1), Policy(0, 2, 1, 10);
    reqs := [Request(key, 0.0, narrow), Request(key, 5.0, narrow), Request(key, 6.0, wide)];
    stores, results := RunOfOneKey(reqs, key);
    WideningLogs(reqs);
  }

  ghost predicate IsWidening(reqs: seq<Request>) {
    && |reqs| == 3 && reqs[0].now == 0.0 && reqs[1].now == 5.0 && reqs[2].now == 6.0
    && reqs[0].policy == reqs[1].policy == Policy(0, 2, 1, 1) && reqs[2].policy == Policy(0, 2, 1, 10)
  }

  lemma {:induction false} WideningLogs(reqs: seq<Request>)
    requires IsWidening(reqs)
    ensures LogAfter(reqs, 0) == [] && LogAfter(reqs, 1) == [0.0] && LogAfter(reqs, 2) == [5.0]
    ensures CheckLog([], reqs[0]).1.allowed && CheckLog([0.0], reqs[1]).1.allowed
    ensures CheckLog([5.0], reqs[2]).1.allowed
  {
    AfterOne(5.0, 6.0 - 10.0);
    AfterOne(0.0, 4.0);
    assert CheckLog([], reqs[0]).0 == [] + [0.0] == [0.0];
    assert CheckLog([0.0], reqs[1]).0 == [] + [5.0] == [5.0];
  }

  lemma {:induction false} WideningTimes(reqs: seq<Request>, results: seq<RateLimitResult>, key: string)
    requires IsWidening(reqs) && |results| == 3 && reqs[0].key == reqs[1].key == key
    requires results[0].allowed && results[1].allowed
    ensures AdmittedTimes(reqs, results, key, 2) == [0.0, 5.0]
  {
    assert AdmittedTimes(reqs, results, key, 0) == [];
    assert AdmittedTimes(reqs, results, key, 1) == [] + [0.0] == [0.0];
    assert [0.0] + [5.0] == [0.0, 5.0];
  }

  lemma {:induction false} RefusedByTimes(q: Request)
    requires q.now == 6.0 && q.policy == Policy(0, 2, 1, 10)
    ensures !Verdict([0.0, 5.0], q, false).allowed
  {
    AfterTwo(0.0, 5.0, 6.0 - 10.0);
  }

  /** The two stores on an entry that lies exactly on the soft cutoff: one request a second is allowed, and
      the second one, a second later, passes in memory and is refused by Redis. */
  lemma {:induction false} TwinsDisagree(key: string, member: string, other: string)
      returns (stores: seq<Store>, spaces: seq<Keyspace>, reqs: seq<Request>, memory: seq<RateLimitResult>,
               redis: seq<RateLimitResult>)
    requires member != other
    ensures MemoryRun(stores, reqs, memory) && RedisRun(spaces, reqs, [member, other], redis) && Steady(reqs)
    ensures |reqs| == 2 && !OffBoundary(reqs, 1) && memory[1].allowed && !redis[1].allowed
  {
    var policy := Policy(1, 0, 1, 3600);
    var first, second := Request(key, 0.0, policy), Request(key, 1.0, policy);
    reqs := [first, second];
    stores, memory := RunOfOneKey(reqs, key);
    assert LogAfter(reqs, 1) == [0.0] by { assert [] + [0.0] == [0.0]; }
    AfterOne(0.0, -3599.0);
    AfterOne(0.0, 0.0);
    var entry := map[member := 0.0];
    var set1 := SortedSet(entry, 7200.0);
    var none: map<string, real> := map[];
    spaces := [map[], map[key := set1], map[key := set1]];
    redis := [Decide(0, 0, policy), Decide(1, 1, policy)];
    CountsOf(none, entry, member);
    assert RedisStep(spaces[0], first, member, spaces[1], redis[0]) by {
      assert ZRemRangeByScore(none, first.HardCutoff()) == none;
      assert none[member := 0.0] == entry;
    }
    assert RedisStep(spaces[1], second, other, spaces[2], redis[1]) by {
      assert ZRemRangeByScore(entry, second.HardCutoff()) == entry;
    }
    assert History(reqs[..1], key, false) == [0.0] by {
      assert reqs[..1] == [] + [first] && History([], key, false) == [];
      HistorySnoc([], first, key, false);
      assert [] + [0.0] == [0.0];
    }
  }

  lemma {:induction false} CountsOf(none: map<string, real>, entry: map<string, real>, member: string)
    requires none == map[] && entry == map[member := 0.0]
    ensures forall c: real :: ZCount(none, c) == 0
    ensures forall c: real :: c <= 0.0 ==> ZCount(entry, c) == 1
  {
    forall c: real
      ensures ZCount(none, c) == 0
    {
      ZCountSplits(none, c);
      assert Above(none, c) == {} && At(none, c) == {};
    }
    forall c: real | c <= 0.0
      ensures ZCount(entry, c) == 1
    {
      assert (set m | m in entry && entry[m] >= c) == {member};
    }
  }
}
