/** Pruning by itself: what is left of the admitted times of a key when every request for it discards the
    entries up to some cut, and when that still counts like all of them. */
module RateLimitPruning {
  import opened RateLimitStore
  import opened RateLimitRuns

  /** No time admitted by the first `n` requests lies in (lo, hi]. */
  predicate NoneIn(reqs: seq<Request>, results: seq<RateLimitResult>, key: string, n: nat, lo: real, hi: real)
    requires |results| == |reqs| && n <= |reqs|
  {
    CountIn(AdmittedTimes(reqs, results, key, n), lo, hi) == 0
  }

  /** Among the first `n` requests, none admitted later than `c` has been pruned by a later one. */
  ghost predicate NonePruned(reqs: seq<Request>, results: seq<RateLimitResult>, cuts: seq<real>, key: string, n: nat,
                             c: real)
    requires |results| == |cuts| == |reqs| && n <= |reqs|
  {
    forall l {:trigger reqs[l]} :: 0 <= l < n && reqs[l].key == key ==>
      NoneIn(reqs, results, key, l, c, cuts[l])
  }

  /** What is left for a key when each of its requests prunes at its cut, and an admitted one is added. */
  function Survivors(reqs: seq<Request>, results: seq<RateLimitResult>, cuts: seq<real>, key: string, n: nat): seq<real>
    requires |results| == |cuts| == |reqs| && n <= |reqs|
  {
    if n == 0 then []
    else
      var before, q := Survivors(reqs, results, cuts, key, n - 1), reqs[n - 1];
      if q.key != key then before
      else After(before, cuts[n - 1]) + if results[n - 1].allowed then [q.now] else []
  }

  // ----- counting what is missing

  function Later(a: real, b: real): real {
    if a <= b then b else a
  }

  lemma {:induction false} AfterTwice(log: seq<real>, a: real, b: real)
    ensures After(After(log, a), b) == After(log, Later(a, b))
  {
    if log != [] {
      var init, t := log[..|log| - 1], log[|log| - 1];
      AfterTwice(init, a, b);
      AfterSnoc(After(init, a), t, b);
    }
  }

  lemma {:induction false} AfterOne(a: real, c: real)
    ensures After([a], c) == if a > c then [a] else []
  {
    AfterSnoc([], a, c);
    assert [] + [a] == [a];
  }

  lemma {:induction false} AfterTwo(a: real, b: real, c: real)
    ensures After([a, b], c) == (if a > c then [a] else []) + (if b > c then [b] else [])
  {
    AfterOne(a, c);
    AfterSnoc([a], b, c);
    assert [a] + [b] == [a, b];
  }

  /** Raising a cutoff loses the entries between. */
  lemma {:induction false} RaisedCutoff(log: seq<real>, lo: real, hi: real)
    requires lo <= hi
    ensures |After(log, lo)| == |After(log, hi)| + CountIn(log, lo, hi)
  {
    if log != [] {
      RaisedCutoff(log[..|log| - 1], lo, hi);
    }
  }

  lemma {:induction false} CountInSplits(log: seq<real>, a: real, b: real, c: real)
    ensures CountIn(log, a, c) <= CountIn(log, a, b) + CountIn(log, b, c)
    ensures a <= b ==> CountIn(log, b, c) <= CountIn(log, a, c)
    ensures b <= c ==> CountIn(log, a, b) <= CountIn(log, a, c)
  {
    if log != [] {
      CountInSplits(log[..|log| - 1], a, b, c);
    }
  }

  lemma {:induction false} CountInGrows(reqs: seq<Request>, results: seq<RateLimitResult>, key: string, m: nat, n: nat,
                                        lo: real, hi: real)
    requires |results| == |reqs| && m <= n <= |reqs|
    ensures CountIn(AdmittedTimes(reqs, results, key, m), lo, hi)
              <= CountIn(AdmittedTimes(reqs, results, key, n), lo, hi)
    ensures (forall j {:trigger reqs[j]} :: m <= j < n ==> reqs[j].now > hi) ==>
              CountIn(AdmittedTimes(reqs, results, key, m), lo, hi)
                  == CountIn(AdmittedTimes(reqs, results, key, n), lo, hi)
  {
    if m < n {
      CountInGrows(reqs, results, key, m, n - 1, lo, hi);
      CountInSnoc(AdmittedTimes(reqs, results, key, n - 1), reqs[n - 1].now, lo, hi);
    }
  }

  lemma {:induction false} RaiseFloor(reqs: seq<Request>, results: seq<RateLimitResult>, cuts: seq<real>, key: string,
                                      n: nat, lo: real, hi: real)
    requires |results| == |cuts| == |reqs| && n <= |reqs| && lo <= hi && NonePruned(reqs, results, cuts, key, n, lo)
    ensures NonePruned(reqs, results, cuts, key, n, hi)
  {
    forall l | 0 <= l < n && reqs[l].key == key
      ensures NoneIn(reqs, results, key, l, hi, cuts[l])
    {
      CountInSplits(AdmittedTimes(reqs, results, key, l), lo, hi, cuts[l]);
    }
  }

  lemma {:induction false} LowerFloor(reqs: seq<Request>, results: seq<RateLimitResult>, cuts: seq<real>, key: string,
                                      n: nat, lo: real, hi: real)
    requires |results| == |cuts| == |reqs| && n <= |reqs| && lo <= hi
    requires NonePruned(reqs, results, cuts, key, n, hi) && NoneIn(reqs, results, key, n, lo, hi)
    ensures NonePruned(reqs, results, cuts, key, n, lo)
  {
    forall l | 0 <= l < n && reqs[l].key == key
      ensures NoneIn(reqs, results, key, l, lo, cuts[l])
    {
      CountInGrows(reqs, results, key, l, n, lo, hi);
      CountInSplits(AdmittedTimes(reqs, results, key, l), lo, hi, cuts[l]);
    }
  }

  lemma {:induction false} NonePrunedStep(reqs: seq<Request>, results: seq<RateLimitResult>, cuts: seq<real>,
                                          key: string, n: nat, c: real, m: real)
    requires |results| == |cuts| == |reqs| && 0 < n <= |reqs| && reqs[n - 1].key == key && m == Later(cuts[n - 1], c)
    ensures NonePruned(reqs, results, cuts, key, n, c)
       <==> NonePruned(reqs, results, cuts, key, n - 1, m) && NoneIn(reqs, results, key, n - 1, c, m)
  {
    if NonePruned(reqs, results, cuts, key, n, c) {
      assert NoneIn(reqs, results, key, n - 1, c, cuts[n - 1]);
      RaiseFloor(reqs, results, cuts, key, n - 1, c, m);
      EmptyInterval(AdmittedTimes(reqs, results, key, n - 1), c);
    }
    if NonePruned(reqs, results, cuts, key, n - 1, m) && NoneIn(reqs, results, key, n - 1, c, m) {
      LowerFloor(reqs, results, cuts, key, n - 1, c, m);
      CountInSplits(AdmittedTimes(reqs, results, key, n - 1), c, cuts[n - 1], m);
    }
  }

  lemma {:induction false} EmptyInterval(log: seq<real>, c: real)
    ensures CountIn(log, c, c) == 0
  {
    if log != [] {
      EmptyInterval(log[..|log| - 1], c);
    }
  }

  /** One request on the log of its key and on the list of admitted times. */
  lemma {:induction false} PruneStep(kept: seq<real>, times: seq<real>, h: real, c: real, now: real, allowed: bool)
    ensures var added := if allowed then [now] else [];
            && |After(After(kept, h) + added, c)| == |After(kept, Later(h, c))| + (if allowed && now > c then 1 else 0)
            && |After(times + added, c)|
               == |After(times, Later(h, c))| + CountIn(times, c, Later(h, c)) + (if allowed && now > c then 1 else 0)
  {
    AfterTwice(kept, h, c);
    AfterSnoc(After(kept, h), now, c);
    AfterSnoc(times, now, c);
    RaisedCutoff(times, c, Later(h, c));
    assert After(kept, h) + [] == After(kept, h) && times + [] == times;
  }

  /** What is left counts like everything admitted, from a cutoff, exactly when nothing later than it
      has been pruned. */
  ghost predicate CountsWhenKept(reqs: seq<Request>, results: seq<RateLimitResult>, cuts: seq<real>, key: string,
                                 n: nat, c: real)
    requires |results| == |cuts| == |reqs| && n <= |reqs|
  {
    var left, all :=
        |After(Survivors(reqs, results, cuts, key, n), c)|, |After(AdmittedTimes(reqs, results, key, n), c)|;
    left <= all && (left == all <==> NonePruned(reqs, results, cuts, key, n, c))
  }

  lemma {:induction false} SurvivorsCount(reqs: seq<Request>, results: seq<RateLimitResult>, cuts: seq<real>,
                                          key: string, n: nat, c: real)
    requires |results| == |cuts| == |reqs| && n <= |reqs|
    ensures CountsWhenKept(reqs, results, cuts, key, n, c)
  {
    if n != 0 {
      if reqs[n - 1].key != key {
        SurvivorsCount(reqs, results, cuts, key, n - 1, c);
        assert NonePruned(reqs, results, cuts, key, n, c) <==> NonePruned(reqs, results, cuts, key, n - 1, c);
      } else {
        SurvivorsCount(reqs, results, cuts, key, n - 1, Later(cuts[n - 1], c));
        SurvivorsKeyStep(reqs, results, cuts, key, n, c);
      }
    }
  }

  lemma {:induction false} SurvivorsKeyStep(reqs: seq<Request>, results: seq<RateLimitResult>, cuts: seq<real>,
                                            key: string, n: nat, c: real)
    requires |results| == |cuts| == |reqs| && 0 < n <= |reqs| && reqs[n - 1].key == key
    requires CountsWhenKept(reqs, results, cuts, key, n - 1, Later(cuts[n - 1], c))
    ensures CountsWhenKept(reqs, results, cuts, key, n, c)
  {
    var h := cuts[n - 1];
    SurvivorsStep(reqs, results, cuts, key, n);
    NonePrunedStep(reqs, results, cuts, key, n, c, Later(h, c));
    PruneStep(Survivors(reqs, results, cuts, key, n - 1), AdmittedTimes(reqs, results, key, n - 1), h, c,
              reqs[n - 1].now, results[n - 1].allowed);
  }

  lemma {:induction false} SurvivorsStep(reqs: seq<Request>, results: seq<RateLimitResult>, cuts: seq<real>,
                                         key: string, n: nat)
    requires |results| == |cuts| == |reqs| && 0 < n <= |reqs| && reqs[n - 1].key == key
    ensures var added := if results[n - 1].allowed then [reqs[n - 1].now] else [];
            && Survivors(reqs, results, cuts, key, n)
               == After(Survivors(reqs, results, cuts, key, n - 1), cuts[n - 1]) + added
            && AdmittedTimes(reqs, results, key, n) == AdmittedTimes(reqs, results, key, n - 1) + added
  {
  }

  // ----- what is left, entry by entry

  lemma {:induction false} NothingBetween(log: seq<real>, lo: real, hi: real)
    requires lo <= hi && CountIn(log, lo, hi) == 0
    ensures After(log, lo) == After(log, hi)
  {
    if log != [] {
      NothingBetween(log[..|log| - 1], lo, hi);
    }
  }

  ghost predicate SameWhenKept(reqs: seq<Request>, results: seq<RateLimitResult>, cuts: seq<real>, key: string, n: nat,
                               c: real)
    requires |results| == |cuts| == |reqs| && n <= |reqs|
  {
    After(Survivors(reqs, results, cuts, key, n), c) == After(AdmittedTimes(reqs, results, key, n), c)
  }

  /** If nothing later than `c` has been pruned, what is left later than `c` is what was admitted. */
  lemma {:induction false} SurvivorsSame(reqs: seq<Request>, results: seq<RateLimitResult>, cuts: seq<real>,
                                         key: string, n: nat, c: real)
    requires |results| == |cuts| == |reqs| && n <= |reqs| && NonePruned(reqs, results, cuts, key, n, c)
    ensures SameWhenKept(reqs, results, cuts, key, n, c)
    decreases n
  {
    if n != 0 {
      if reqs[n - 1].key != key {
        SurvivorsSame(reqs, results, cuts, key, n - 1, c);
      } else {
        NonePrunedStep(reqs, results, cuts, key, n, c, Later(cuts[n - 1], c));
        SurvivorsSame(reqs, results, cuts, key, n - 1, Later(cuts[n - 1], c));
        SurvivorsSameStep(reqs, results, cuts, key, n - 1, c);
      }
    }
  }

  lemma {:induction false} SurvivorsSameStep(reqs: seq<Request>, results: seq<RateLimitResult>, cuts: seq<real>,
                                             key: string, n: nat, c: real)
    requires |results| == |cuts| == |reqs| && n < |reqs| && reqs[n].key == key
    requires SameWhenKept(reqs, results, cuts, key, n, Later(cuts[n], c))
    requires NoneIn(reqs, results, key, n, c, Later(cuts[n], c))
    ensures SameWhenKept(reqs, results, cuts, key, n + 1, c)
  {
    var left, times := Survivors(reqs, results, cuts, key, n), AdmittedTimes(reqs, results, key, n);
    SurvivorsStep(reqs, results, cuts, key, n + 1);
    NothingBetween(times, c, Later(cuts[n], c));
    AfterTwice(left, cuts[n], c);
    AfterSnoc(After(left, cuts[n]), reqs[n].now, c);
    AfterSnoc(times, reqs[n].now, c);
    assert After(left, cuts[n]) + [] == After(left, cuts[n]) && times + [] == times;
  }
}
