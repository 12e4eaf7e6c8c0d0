/** Whole runs of the limiter: both stores against the limiter that forgets nothing, the bound on
    what any window ever holds, and the two stores against each other. */
module RateLimitRuns {
  import opened RateLimitStore

  /** The assumptions on a run: the clock does not go back, the windows of a key do not change, and
      a soft window is no longer than the hard one.  Limits may change at any time. */
  ghost predicate Steady(reqs: seq<Request>) {
    && (forall i, j :: 0 <= i < j < |reqs| ==> reqs[i].now <= reqs[j].now)
    && (forall i, j :: 0 <= i < j < |reqs| && reqs[i].key == reqs[j].key ==>
          reqs[i].policy.hardWindow == reqs[j].policy.hardWindow)
    && (forall i :: 0 <= i < |reqs| ==> reqs[i].policy.softWindow <= reqs[i].policy.hardWindow)
  }

  /** All the in-memory store needs: the hard cutoffs of a key never go back, and a soft window is no
      longer than the hard one. */
  ghost predicate CutoffsAdvance(reqs: seq<Request>) {
    && (forall i, j :: 0 <= i < j < |reqs| && reqs[i].key == reqs[j].key ==>
        reqs[i].HardCutoff() <= reqs[j].HardCutoff())
    && (forall i :: 0 <= i < |reqs| ==> reqs[i].policy.softWindow <= reqs[i].policy.hardWindow)
  }

  lemma {:induction false} SteadyAdvances(reqs: seq<Request>)
    requires Steady(reqs)
    ensures CutoffsAdvance(reqs)
  {
  }

  ghost predicate CutoffsUpTo(past: seq<Request>, key: string, c: real) {
    forall j :: 0 <= j < |past| && past[j].key == key ==> past[j].HardCutoff() <= c
  }

  ghost predicate CutoffsBelow(past: seq<Request>, key: string, c: real) {
    forall j :: 0 <= j < |past| && past[j].key == key ==> past[j].HardCutoff() < c
  }

  // ----- pruned logs

  lemma {:induction false} AfterAfter(log: seq<real>, h: real, c: real)
    requires h <= c
    ensures After(After(log, h), c) == After(log, c)
  {
    if log != [] {
      var init, t := log[..|log| - 1], log[|log| - 1];
      AfterAfter(init, h, c);
      if t > h {
        AfterSnoc(After(init, h), t, c);
      }
    }
  }

  lemma {:induction false} AfterSnoc(log: seq<real>, t: real, c: real)
    ensures After(log + [t], c) == if t > c then After(log, c) + [t] else After(log, c)
    ensures CountAt(log + [t], c) == CountAt(log, c) + if t == c then 1 else 0
  {
    assert (log + [t])[..|log|] == log;
  }

  lemma {:induction false} AfterAntitone(log: seq<real>, lo: real, hi: real)
    requires lo <= hi
    ensures |After(log, hi)| <= |After(log, lo)|
  {
    if log != [] {
      AfterAntitone(log[..|log| - 1], lo, hi);
    }
  }

  lemma {:induction false} NothingAfter(log: seq<real>, c: real)
    requires forall i :: 0 <= i < |log| ==> log[i] <= c
    ensures After(log, c) == []
  {
    if log != [] {
      NothingAfter(log[..|log| - 1], c);
    }
  }

  lemma {:induction false} NothingAt(log: seq<real>, c: real)
    requires forall i :: 0 <= i < |log| ==> log[i] != c
    ensures CountAt(log, c) == 0
  {
    if log != [] {
      NothingAt(log[..|log| - 1], c);
    }
  }

  lemma {:induction false} HistorySnoc(past: seq<Request>, q: Request, key: string, inclusive: bool)
    ensures var h := History(past, key, inclusive);
            History(past + [q], key, inclusive)
              == if q.key == key && Verdict(h, q, inclusive).allowed then h + [q.now] else h
  {
    assert (past + [q])[..|past|] == past;
  }

  lemma {:induction false} HistoryStep(reqs: seq<Request>, n: nat, key: string, inclusive: bool)
    requires n < |reqs|
    ensures var h := History(reqs[..n], key, inclusive);
            History(reqs[..n + 1], key, inclusive)
              == if reqs[n].key == key && Verdict(h, reqs[n], inclusive).allowed then h + [reqs[n].now] else h
  {
    assert reqs[..n + 1] == reqs[..n] + [reqs[n]];
    HistorySnoc(reqs[..n], reqs[n], key, inclusive);
  }

  /** Every admitted time is the clock reading of some request for the key. */
  lemma {:induction false} HistoryFromRequests(reqs: seq<Request>, key: string, inclusive: bool, t: real)
    requires t in History(reqs, key, inclusive)
    ensures exists j :: 0 <= j < |reqs| && reqs[j].key == key && reqs[j].now == t
  {
    var n := |reqs| - 1;
    if t in History(reqs[..n], key, inclusive) {
      HistoryFromRequests(reqs[..n], key, inclusive, t);
    } else {
      assert reqs[n].key == key && reqs[n].now == t;
    }
  }

  // ----- the in-memory store forgets nothing that matters

  /** What the store still remembers of a key is the whole history as seen from any cutoff that is
      not older than the ones already applied. */
  ghost predicate Tracks(store: Store, past: seq<Request>) {
    forall k, c :: CutoffsUpTo(past, k, c) ==> After(LogIn(store, k), c) == After(History(past, k, false), c)
  }

  lemma {:induction false} StoreStepTracks(store: Store, past: seq<Request>, q: Request, store': Store,
                                           r: RateLimitResult)
    requires Tracks(store, past) && CutoffsAdvance(past + [q])
    requires StoreStep(store, q, store', r)
    ensures r == Verdict(History(past, q.key, false), q, false)
    ensures Tracks(store', past + [q])
  {
    var log, hist, h, s := LogIn(store, q.key), History(past, q.key, false), q.HardCutoff(), q.SoftCutoff();
    assert (past + [q])[|past|] == q;
    assert CutoffsUpTo(past, q.key, h) && CutoffsUpTo(past, q.key, s) by {
      forall j | 0 <= j < |past| && past[j].key == q.key
        ensures past[j].HardCutoff() <= h <= s
      {
        assert (past + [q])[j] == past[j];
      }
    }
    AfterAfter(log, h, s);
    assert After(log, h) == After(hist, h) && After(log, s) == After(hist, s);
    forall k, c | CutoffsUpTo(past + [q], k, c)
      ensures After(LogIn(store', k), c) == After(History(past + [q], k, false), c)
    {
      assert CutoffsUpTo(past, k, c) by {
        assert forall j :: 0 <= j < |past| ==> (past + [q])[j] == past[j];
      }
      HistorySnoc(past, q, k, false);
      if k == q.key {
        AfterAfter(log, h, c);
        AfterSnoc(After(log, h), q.now, c);
        AfterSnoc(hist, q.now, c);
      }
    }
  }

  /** A run of the in-memory store from the empty store: the store before each request, and the answers. */
  ghost predicate MemoryRun(stores: seq<Store>, reqs: seq<Request>, results: seq<RateLimitResult>) {
    && |stores| == |reqs| + 1 && |results| == |reqs| && stores[0] == map[]
    && forall i :: 0 <= i < |reqs| ==> StoreStep(stores[i], reqs[i], stores[i + 1], results[i])
  }

  /** The answers the limiter that keeps everything would give. */
  ghost predicate FromHistory(reqs: seq<Request>, results: seq<RateLimitResult>, inclusive: bool) {
    && |results| == |reqs|
    && forall i {:trigger results[i]} :: 0 <= i < |reqs| ==>
         results[i] == Verdict(History(reqs[..i], reqs[i].key, inclusive), reqs[i], inclusive)
  }

  /** Pruning and the deletion of stale keys never show in an answer. */
  lemma {:induction false} PruningIsUnobservable(stores: seq<Store>, reqs: seq<Request>, results: seq<RateLimitResult>)
    requires MemoryRun(stores, reqs, results) && CutoffsAdvance(reqs)
    ensures FromHistory(reqs, results, false)
  {
    forall i | 0 <= i < |reqs|
      ensures results[i] == Verdict(History(reqs[..i], reqs[i].key, false), reqs[i], false)
    {
      MemoryAnswer(stores, reqs, results, i);
    }
  }

  lemma {:induction false} MemoryAnswer(stores: seq<Store>, reqs: seq<Request>, results: seq<RateLimitResult>, i: nat)
    requires MemoryRun(stores, reqs, results) && CutoffsAdvance(reqs) && i < |reqs|
    ensures results[i] == Verdict(History(reqs[..i], reqs[i].key, false), reqs[i], false)
  {
    MemoryRunTracks(stores, reqs, results, i);
    MemoryStep(stores, reqs, results, i);
  }

  lemma {:induction false} MemoryStep(stores: seq<Store>, reqs: seq<Request>, results: seq<RateLimitResult>, n: nat)
    requires MemoryRun(stores, reqs, results) && CutoffsAdvance(reqs) && n < |reqs| && Tracks(stores[n], reqs[..n])
    ensures results[n] == Verdict(History(reqs[..n], reqs[n].key, false), reqs[n], false)
    ensures Tracks(stores[n + 1], reqs[..n + 1])
  {
    assert reqs[..n] + [reqs[n]] == reqs[..n + 1];
    StoreStepTracks(stores[n], reqs[..n], reqs[n], stores[n + 1], results[n]);
  }

  lemma {:induction false} MemoryRunTracks(stores: seq<Store>, reqs: seq<Request>, results: seq<RateLimitResult>,
                                           n: nat)
    requires MemoryRun(stores, reqs, results) && CutoffsAdvance(reqs) && n <= |reqs|
    ensures Tracks(stores[n], reqs[..n])
    decreases n
  {
    if n != 0 {
      MemoryRunTracks(stores, reqs, results, n - 1);
      MemoryStep(stores, reqs, results, n - 1);
    }
  }

  // ----- the Redis store

  function Above(scores: map<string, real>, c: real): set<string> {
    set m | m in scores && scores[m] > c
  }

  function At(scores: map<string, real>, c: real): set<string> {
    set m | m in scores && scores[m] == c
  }

  lemma {:induction false} ZCountSplits(scores: map<string, real>, c: real)
    ensures ZCount(scores, c) == |Above(scores, c)| + |At(scores, c)|
  {
    assert (set m | m in scores && scores[m] >= c) == Above(scores, c) + At(scores, c);
    assert Above(scores, c) !! At(scores, c);
  }

  /** A set of scores counts like a log from the cutoff `c`. */
  ghost predicate ScoresMatch(scores: map<string, real>, log: seq<real>, c: real) {
    |Above(scores, c)| == |After(log, c)| && |At(scores, c)| == CountAt(log, c)
  }

  /** The sorted set of each key, were it not to expire, counts like the history from any later
      cutoff; and it expires only when nothing in it could matter any more. */
  ghost predicate TracksRedis(keys: Keyspace, past: seq<Request>) {
    && (forall k :: k !in keys ==> History(past, k, true) == [])
    && (forall k, c :: k in keys && CutoffsUpTo(past, k, c) ==>
          |Above(keys[k].scores, c)| == |After(History(past, k, true), c)|)
    && (forall k, c :: k in keys && CutoffsBelow(past, k, c) ==>
          |At(keys[k].scores, c)| == CountAt(History(past, k, true), c))
    && (forall k, j, t :: k in keys && 0 <= j < |past| && past[j].key == k && t in History(past, k, true) ==>
          t + Ttl(past[j].policy) as real <= keys[k].expiresAt)
  }

  /** What the script sees at `now` counts like the history from every cutoff not older than the
      hard one, whether or not the key has expired. */
  lemma {:induction false} ScoresCountHistory(keys: Keyspace, past: seq<Request>, q: Request, c: real)
    requires TracksRedis(keys, past) && Steady(past + [q]) && q.HardCutoff() <= c
    ensures |Above(Scores(keys, q.key, q.now), c)| == |After(History(past, q.key, true), c)|
    ensures q.HardCutoff() < c ==>
              |At(Scores(keys, q.key, q.now), c)| == CountAt(History(past, q.key, true), c)
  {
    var hist := History(past, q.key, true);
    assert (past + [q])[|past|] == q;
    assert forall j :: 0 <= j < |past| ==> (past + [q])[j] == past[j];
    if q.key in keys && q.now < keys[q.key].expiresAt {
      assert CutoffsUpTo(past, q.key, c);
      assert q.HardCutoff() < c ==> CutoffsBelow(past, q.key, c);
    } else {
      forall i | 0 <= i < |hist|
        ensures hist[i] <= q.HardCutoff()
      {
        var t := hist[i];
        HistoryFromRequests(past, q.key, true, t);
        var j :| 0 <= j < |past| && past[j].key == q.key && past[j].now == t;
        assert t + Ttl(past[j].policy) as real <= keys[q.key].expiresAt <= q.now;
        assert past[j].policy.hardWindow == q.policy.hardWindow;
      }
      NothingAfter(hist, c);
      assert Above(map[], c) == {} && At(map[], c) == {};
      if q.HardCutoff() < c {
        NothingAt(hist, c);
      }
    }
  }

  lemma {:induction false} PrunedScores(scores: map<string, real>, h: real, c: real)
    requires h <= c
    ensures Above(ZRemRangeByScore(scores, h), c) == Above(scores, c)
    ensures h < c ==> At(ZRemRangeByScore(scores, h), c) == At(scores, c)
    ensures h == c ==> At(ZRemRangeByScore(scores, h), c) == {}
  {
  }

  lemma {:induction false} AddedScore(scores: map<string, real>, member: string, t: real, c: real)
    requires member !in scores
    ensures |Above(scores[member := t], c)| == |Above(scores, c)| + if t > c then 1 else 0
    ensures |At(scores[member := t], c)| == |At(scores, c)| + if t == c then 1 else 0
  {
    if t > c {
      assert Above(scores[member := t], c) == Above(scores, c) + {member};
    } else {
      assert Above(scores[member := t], c) == Above(scores, c);
    }
    if t == c {
      assert At(scores[member := t], c) == At(scores, c) + {member};
    } else {
      assert At(scores[member := t], c) == At(scores, c);
    }
  }

  /** The script answers like the inclusive reference. */
  lemma {:induction false} RedisAnswers(keys: Keyspace, past: seq<Request>, q: Request, member: string, keys': Keyspace,
                     r: RateLimitResult)
    requires TracksRedis(keys, past) && Steady(past + [q]) && RedisStep(keys, q, member, keys', r)
    ensures r == Verdict(History(past, q.key, true), q, true)
  {
    var scores, h, s := Scores(keys, q.key, q.now), q.HardCutoff(), q.SoftCutoff();
    assert (past + [q])[|past|] == q;
    ZCountSplits(ZRemRangeByScore(scores, h), h);
    ZCountSplits(ZRemRangeByScore(scores, h), s);
    PrunedScores(scores, h, h);
    PrunedScores(scores, h, s);
    ScoresCountHistory(keys, past, q, h);
    ScoresCountHistory(keys, past, q, s);
  }

  /** Counting after the script has run, from a cutoff at least as recent as its own. */
  lemma {:induction false} RedisCounts(keys: Keyspace, past: seq<Request>, q: Request, member: string, keys': Keyspace,
                    r: RateLimitResult, c: real)
    requires TracksRedis(keys, past) && Steady(past + [q]) && RedisStep(keys, q, member, keys', r)
    requires q.key in keys ==> member !in keys[q.key].scores
    requires q.HardCutoff() <= c
    ensures var hist := History(past + [q], q.key, true);
            && |Above(keys'[q.key].scores, c)| == |After(hist, c)|
            && (q.HardCutoff() < c ==> |At(keys'[q.key].scores, c)| == CountAt(hist, c))
  {
    var scores, hist := Scores(keys, q.key, q.now), History(past, q.key, true);
    var kept := ZRemRangeByScore(scores, q.HardCutoff());
    RedisAnswers(keys, past, q, member, keys', r);
    HistorySnoc(past, q, q.key, true);
    assert |Above(kept, c)| == |After(hist, c)| && (q.HardCutoff() < c ==> |At(kept, c)| == CountAt(hist, c)) by {
      ScoresCountHistory(keys, past, q, c);
      PrunedScores(scores, q.HardCutoff(), c);
    }
    AfterSnoc(hist, q.now, c);
    AddedScore(kept, member, q.now, c);
  }

  /** The deadline of a key lies beyond everything its history holds. */
  lemma {:induction false} RedisDeadline(keys: Keyspace, past: seq<Request>, q: Request, member: string,
                                         keys': Keyspace, r: RateLimitResult, j: nat, t: real)
    requires TracksRedis(keys, past) && Steady(past + [q]) && RedisStep(keys, q, member, keys', r)
    requires j < |past + [q]| && (past + [q])[j].key == q.key && t in History(past + [q], q.key, true)
    ensures t + Ttl((past + [q])[j].policy) as real <= keys'[q.key].expiresAt
  {
    RedisAnswers(keys, past, q, member, keys', r);
    HistorySnoc(past, q, q.key, true);
    var all := past + [q];
    assert all[|past|] == q;
    assert all[j].policy.hardWindow == q.policy.hardWindow;
    assert forall i :: 0 <= i < |past| ==> all[i] == past[i];
    if r.allowed {
      if t != q.now {
        HistoryFromRequests(past, q.key, true, t);
      }
    } else {
      HistoryFromRequests(past, q.key, true, t);
      var i :| 0 <= i < |past| && past[i].key == q.key && past[i].now == t;
      assert all[i].policy.hardWindow == q.policy.hardWindow;
      assert t + Ttl(past[i].policy) as real <= keys[q.key].expiresAt;
    }
  }

  lemma {:induction false} RedisStepTracks(keys: Keyspace, past: seq<Request>, q: Request, member: string,
                                           keys': Keyspace, r: RateLimitResult)
    requires TracksRedis(keys, past) && Steady(past + [q]) && RedisStep(keys, q, member, keys', r)
    requires q.key in keys ==> member !in keys[q.key].scores
    ensures TracksRedis(keys', past + [q])
  {
    var all := past + [q];
    assert all[|past|] == q;
    assert forall j :: 0 <= j < |past| ==> all[j] == past[j];
    forall k | k !in keys'
      ensures History(all, k, true) == []
    {
      HistorySnoc(past, q, k, true);
    }
    forall k, c | k in keys' && CutoffsUpTo(all, k, c)
      ensures |Above(keys'[k].scores, c)| == |After(History(all, k, true), c)|
    {
      HistorySnoc(past, q, k, true);
      if k == q.key {
        RedisCounts(keys, past, q, member, keys', r, c);
      } else {
        assert CutoffsUpTo(past, k, c);
      }
    }
    forall k, c | k in keys' && CutoffsBelow(all, k, c)
      ensures |At(keys'[k].scores, c)| == CountAt(History(all, k, true), c)
    {
      HistorySnoc(past, q, k, true);
      if k == q.key {
        RedisCounts(keys, past, q, member, keys', r, c);
      } else {
        assert CutoffsBelow(past, k, c);
      }
    }
    forall k, j, t | k in keys' && 0 <= j < |all| && all[j].key == k && t in History(all, k, true)
      ensures t + Ttl(all[j].policy) as real <= keys'[k].expiresAt
    {
      HistorySnoc(past, q, k, true);
      if k == q.key {
        RedisDeadline(keys, past, q, member, keys', r, j, t);
      }
    }
  }

  /** A run of the Redis store from an empty keyspace.  Members are unique identifiers: none is
      already in the set it is added to. */
  ghost predicate RedisRun(spaces: seq<Keyspace>, reqs: seq<Request>, members: seq<string>,
                           results: seq<RateLimitResult>) {
    && |spaces| == |reqs| + 1 && |members| == |results| == |reqs| && spaces[0] == map[]
    && forall i :: 0 <= i < |reqs| ==>
         && RedisStep(spaces[i], reqs[i], members[i], spaces[i + 1], results[i])
         && (reqs[i].key in spaces[i] ==> members[i] !in spaces[i][reqs[i].key].scores)
  }

  /** Neither pruning nor the expiry of keys ever shows in an answer of the script. */
  lemma {:induction false} ExpiryIsUnobservable(spaces: seq<Keyspace>, reqs: seq<Request>, members: seq<string>,
                             results: seq<RateLimitResult>)
    requires RedisRun(spaces, reqs, members, results) && Steady(reqs)
    ensures FromHistory(reqs, results, true)
  {
    forall i | 0 <= i < |reqs|
      ensures results[i] == Verdict(History(reqs[..i], reqs[i].key, true), reqs[i], true)
    {
      RedisAnswer(spaces, reqs, members, results, i);
    }
  }

  lemma {:induction false} RedisAnswer(spaces: seq<Keyspace>, reqs: seq<Request>, members: seq<string>,
                                       results: seq<RateLimitResult>, i: nat)
    requires RedisRun(spaces, reqs, members, results) && Steady(reqs) && i < |reqs|
    ensures results[i] == Verdict(History(reqs[..i], reqs[i].key, true), reqs[i], true)
  {
    RedisRunTracks(spaces, reqs, members, results, i);
    SteadyUpTo(reqs, i);
    RedisAnswers(spaces[i], reqs[..i], reqs[i], members[i], spaces[i + 1], results[i]);
  }

  lemma {:induction false} SteadyUpTo(reqs: seq<Request>, i: nat)
    requires Steady(reqs) && i < |reqs|
    ensures Steady(reqs[..i] + [reqs[i]])
  {
    assert reqs[..i] + [reqs[i]] == reqs[..i + 1];
  }

  lemma {:induction false} RedisRunTracks(spaces: seq<Keyspace>, reqs: seq<Request>, members: seq<string>,
                                          results: seq<RateLimitResult>, n: nat)
    requires RedisRun(spaces, reqs, members, results) && Steady(reqs) && n <= |reqs|
    ensures TracksRedis(spaces[n], reqs[..n])
    decreases n
  {
    if n != 0 {
      RedisRunTracks(spaces, reqs, members, results, n - 1);
      assert reqs[..n - 1] + [reqs[n - 1]] == reqs[..n];
      RedisStepTracks(spaces[n - 1], reqs[..n - 1], reqs[n - 1], members[n - 1], spaces[n], results[n - 1]);
    }
  }

  // ----- the window bound

  /** The times at which the first `n` requests were let through, for one key. */
  function AdmittedTimes(reqs: seq<Request>, results: seq<RateLimitResult>, key: string, n: nat): seq<real>
    requires |results| == |reqs| && n <= |reqs|
  {
    if n == 0 then []
    else
      var past := AdmittedTimes(reqs, results, key, n - 1);
      if reqs[n - 1].key == key && results[n - 1].allowed then past + [reqs[n - 1].now] else past
  }

  lemma {:induction false} AdmittedIsHistory(reqs: seq<Request>, results: seq<RateLimitResult>, key: string,
                                             inclusive: bool, n: nat)
    requires FromHistory(reqs, results, inclusive) && n <= |reqs|
    ensures AdmittedTimes(reqs, results, key, n) == History(reqs[..n], key, inclusive)
  {
    if n != 0 {
      AdmittedIsHistory(reqs, results, key, inclusive, n - 1);
      HistoryStep(reqs, n - 1, key, inclusive);
    }
  }

  lemma {:induction false} CountInIsAfter(log: seq<real>, lo: real, hi: real)
    ensures CountIn(log, lo, hi) <= |After(log, lo)|
  {
    if log != [] {
      CountInIsAfter(log[..|log| - 1], lo, hi);
    }
  }

  lemma {:induction false} CountInSnoc(log: seq<real>, t: real, lo: real, hi: real)
    ensures CountIn(log + [t], lo, hi) == CountIn(log, lo, hi) + if lo < t <= hi then 1 else 0
  {
    assert (log + [t])[..|log|] == log;
  }

  /** A request let through counts itself: it leaves each window that ends now within its limit. */
  lemma {:induction false} AdmissionFits(hist: seq<real>, q: Request, inclusive: bool, soft: bool)
    requires Verdict(hist, q, inclusive).allowed && q.policy.Limit(soft) > 0
    ensures |After(hist, q.now - q.policy.Window(soft) as real)| + 1 <= q.policy.Limit(soft)
  {
  }

  /** From the window that ends at an admission to any interval of the same length. */
  lemma {:induction false} WindowStep(hist: seq<real>, now: real, lo: real, hi: real, limit: int)
    requires |After(hist, now - (hi - lo))| + 1 <= limit
    requires CountIn(hist, lo, hi) <= limit
    ensures CountIn(hist + [now], lo, hi) <= limit
  {
    CountInSnoc(hist, now, lo, hi);
    if now <= hi {
      CountInIsAfter(hist, lo, hi);
      AfterAntitone(hist, now - (hi - lo), lo);
    }
  }

  /** No interval as long as a window ever holds more admitted requests of a key than its limit, if every
      request for the key runs under at most that limit: for the soft window as for the hard one. */
  lemma {:induction false} WindowBound(reqs: seq<Request>, key: string, inclusive: bool, soft: bool, limit: nat,
                                       lo: real, hi: real)
    requires forall i :: 0 <= i < |reqs| && reqs[i].key == key ==>
               reqs[i].policy.Window(soft) as real == hi - lo && 0 < reqs[i].policy.Limit(soft) <= limit
    ensures CountIn(History(reqs, key, inclusive), lo, hi) <= limit
  {
    if reqs != [] {
      var n := |reqs| - 1;
      WindowBound(reqs[..n], key, inclusive, soft, limit, lo, hi);
      var hist := History(reqs[..n], key, inclusive);
      if reqs[n].key == key && Verdict(hist, reqs[n], inclusive).allowed {
        AdmissionFits(hist, reqs[n], inclusive, soft);
        WindowStep(hist, reqs[n].now, lo, hi, limit);
      }
    }
  }

  /** The first `n` answers about a key are those of the key's own admitted times. */
  ghost predicate FromAdmitted(reqs: seq<Request>, results: seq<RateLimitResult>, key: string, inclusive: bool, n: nat)
    requires |results| == |reqs| && n <= |reqs|
  {
    forall i {:trigger AdmittedTimes(reqs, results, key, i)} :: 0 <= i < n && reqs[i].key == key ==>
      results[i] == Verdict(AdmittedTimes(reqs, results, key, i), reqs[i], inclusive)
  }

  /** The same bound over the admitted times of one key whose answers come from these. */
  lemma {:induction false} AdmittedBound(reqs: seq<Request>, results: seq<RateLimitResult>, key: string,
                                         inclusive: bool, soft: bool, limit: nat, lo: real, hi: real, n: nat)
    requires |results| == |reqs| && n <= |reqs| && FromAdmitted(reqs, results, key, inclusive, n)
    requires forall i {:trigger reqs[i]} :: 0 <= i < n && reqs[i].key == key ==>
               reqs[i].policy.Window(soft) as real == hi - lo && 0 < reqs[i].policy.Limit(soft) <= limit
    ensures CountIn(AdmittedTimes(reqs, results, key, n), lo, hi) <= limit
  {
    if n != 0 {
      AdmittedBound(reqs, results, key, inclusive, soft, limit, lo, hi, n - 1);
      var hist, q := AdmittedTimes(reqs, results, key, n - 1), reqs[n - 1];
      if q.key == key && results[n - 1].allowed {
        AdmissionFits(hist, q, inclusive, soft);
        assert q.now - q.policy.Window(soft) as real == q.now - (hi - lo);
        WindowStep(hist, q.now, lo, hi, limit);
      }
    }
  }

  // ----- runs of the limiter that callers see

  /** A run of the selected store from empty stores. */
  ghost predicate LimiterRun(states: seq<Backend>, reqs: seq<Request>, members: seq<string>,
                             results: seq<RateLimitResult>) {
    && |states| == |reqs| + 1 && |members| == |results| == |reqs|
    && states[0].store == map[] && states[0].keys == map[]
    && forall i :: 0 <= i < |reqs| ==>
         CheckStep(states[i], reqs[i], members[i], states[i + 1], results[i])
             && IsFresh(states[i], reqs[i].key, members[i])
  }

  /** What a run must satisfy for its answers to come from the history: less in memory than in Redis. */
  ghost predicate Suits(inMemory: bool, reqs: seq<Request>) {
    if inMemory then CutoffsAdvance(reqs) else Steady(reqs)
  }

  /** The store that is not selected stays empty. */
  lemma {:induction false} OneStoreIsUsed(states: seq<Backend>, reqs: seq<Request>, members: seq<string>,
                                          results: seq<RateLimitResult>, n: nat)
    requires LimiterRun(states, reqs, members, results) && n <= |reqs|
    ensures states[n].inMemory == states[0].inMemory
    ensures if states[0].inMemory then states[n].keys == map[] else states[n].store == map[]
  {
    if n != 0 {
      OneStoreIsUsed(states, reqs, members, results, n - 1);
      assert CheckStep(states[n - 1], reqs[n - 1], members[n - 1], states[n], results[n - 1]);
    }
  }

  ghost function StoresOf(states: seq<Backend>): (r: seq<Store>)
    ensures |r| == |states| && forall i :: 0 <= i < |r| ==> r[i] == states[i].store
  {
    seq(|states|, i requires 0 <= i < |states| => states[i].store)
  }

  ghost function KeyspacesOf(states: seq<Backend>): (r: seq<Keyspace>)
    ensures |r| == |states| && forall i :: 0 <= i < |r| ==> r[i] == states[i].keys
  {
    seq(|states|, i requires 0 <= i < |states| => states[i].keys)
  }

  /** A run of the limiter is a run of the store selected. */
  lemma {:induction false} LimiterRunIsStoreRun(states: seq<Backend>, reqs: seq<Request>, members: seq<string>,
                             results: seq<RateLimitResult>)
    requires LimiterRun(states, reqs, members, results)
    ensures if states[0].inMemory then MemoryRun(StoresOf(states), reqs, results)
            else RedisRun(KeyspacesOf(states), reqs, members, results)
  {
    forall i | 0 <= i < |reqs|
      ensures states[i].inMemory == states[0].inMemory
      ensures CheckStep(states[i], reqs[i], members[i], states[i + 1], results[i])
    {
      OneStoreIsUsed(states, reqs, members, results, i);
    }
  }

  lemma {:induction false} LimiterRunFollowsHistory(states: seq<Backend>, reqs: seq<Request>, members: seq<string>,
                                 results: seq<RateLimitResult>)
    requires LimiterRun(states, reqs, members, results) && Suits(states[0].inMemory, reqs)
    ensures FromHistory(reqs, results, !states[0].inMemory)
  {
    LimiterRunIsStoreRun(states, reqs, members, results);
    if states[0].inMemory {
      PruningIsUnobservable(StoresOf(states), reqs, results);
    } else {
      ExpiryIsUnobservable(KeyspacesOf(states), reqs, members, results);
    }
  }

  /** The bound for every run of either store, over the times at which requests really passed. */
  lemma {:induction false} RunsRespectLimits(states: seq<Backend>, reqs: seq<Request>, members: seq<string>,
                                             results: seq<RateLimitResult>, key: string, soft: bool, limit: nat,
                                             lo: real, hi: real)
    requires LimiterRun(states, reqs, members, results) && Suits(states[0].inMemory, reqs)
    requires forall i :: 0 <= i < |reqs| && reqs[i].key == key ==>
               reqs[i].policy.Window(soft) as real == hi - lo && 0 < reqs[i].policy.Limit(soft) <= limit
    ensures CountIn(AdmittedTimes(reqs, results, key, |reqs|), lo, hi) <= limit
  {
    var inclusive := !states[0].inMemory;
    LimiterRunFollowsHistory(states, reqs, members, results);
    AdmittedIsHistory(reqs, results, key, inclusive, |reqs|);
    assert reqs[..|reqs|] == reqs;
    WindowBound(reqs, key, inclusive, soft, limit, lo, hi);
  }

  /** At every admission of every run, under whatever limits are then in force, the windows that end
      there hold at most their limits, the request itself included. */
  lemma {:induction false} AdmissionsRespectLimits(states: seq<Backend>, reqs: seq<Request>, members: seq<string>,
                                results: seq<RateLimitResult>, i: nat, soft: bool)
    requires LimiterRun(states, reqs, members, results) && Suits(states[0].inMemory, reqs)
    requires i < |reqs| && results[i].allowed && reqs[i].policy.Limit(soft) > 0
    ensures |After(AdmittedTimes(reqs, results, reqs[i].key, i), reqs[i].now - reqs[i].policy.Window(soft) as real)| + 1
              <= reqs[i].policy.Limit(soft)
  {
    var inclusive := !states[0].inMemory;
    LimiterRunFollowsHistory(states, reqs, members, results);
    AdmittedIsHistory(reqs, results, reqs[i].key, inclusive, i);
    AdmissionFits(History(reqs[..i], reqs[i].key, inclusive), reqs[i], inclusive, soft);
  }

  // ----- what an answer means

  /** The requests let through for a key, among the first `n`, after a time (or at it, when inclusive). */
  ghost function PassedSince(reqs: seq<Request>, results: seq<RateLimitResult>, key: string, n: nat, from: real,
                             inclusive: bool): set<nat>
    requires |results| == |reqs| && n <= |reqs|
  {
    set j: nat | j < n && reqs[j].key == key && results[j].allowed
                 && (reqs[j].now > from || (inclusive && reqs[j].now == from))
  }

  lemma {:induction false} PassedSinceCounts(reqs: seq<Request>, results: seq<RateLimitResult>, key: string, n: nat,
                                             from: real, inclusive: bool)
    requires |results| == |reqs| && n <= |reqs|
    ensures |PassedSince(reqs, results, key, n, from, inclusive)|
              == |After(AdmittedTimes(reqs, results, key, n), from)|
                 + if inclusive then CountAt(AdmittedTimes(reqs, results, key, n), from) else 0
    decreases n
  {
    if n == 0 {
      assert PassedSince(reqs, results, key, 0, from, inclusive) == {};
    } else {
      PassedSinceCounts(reqs, results, key, n - 1, from, inclusive);
      PassedSinceStep(reqs, results, key, n - 1, from, inclusive);
    }
  }

  lemma {:induction false} PassedSinceNext(reqs: seq<Request>, results: seq<RateLimitResult>, key: string, n: nat,
                                           from: real, inclusive: bool)
    requires |results| == |reqs| && n < |reqs|
    ensures var q := reqs[n];
            var counted := q.key == key && results[n].allowed && (q.now > from || (inclusive && q.now == from));
            |PassedSince(reqs, results, key, n + 1, from, inclusive)|
              == |PassedSince(reqs, results, key, n, from, inclusive)| + if counted then 1 else 0
  {
    var one := PassedSince(reqs, results, key, n, from, inclusive);
    var two := PassedSince(reqs, results, key, n + 1, from, inclusive);
    if n in two {
      assert two == one + {n};
    } else {
      assert two == one;
    }
  }

  lemma {:induction false} PassedSinceStep(reqs: seq<Request>, results: seq<RateLimitResult>, key: string, n: nat,
                                           from: real, inclusive: bool)
    requires |results| == |reqs| && n < |reqs|
    ensures var before, after := AdmittedTimes(reqs, results, key, n), AdmittedTimes(reqs, results, key, n + 1);
            var one := PassedSince(reqs, results, key, n, from, inclusive);
            |PassedSince(reqs, results, key, n + 1, from, inclusive)| - |one|
              == |After(after, from)| - |After(before, from)|
                 + if inclusive then CountAt(after, from) - CountAt(before, from) else 0
  {
    AfterSnoc(AdmittedTimes(reqs, results, key, n), reqs[n].now, from);
    PassedSinceNext(reqs, results, key, n, from, inclusive);
  }

  /** A result by the counts of the two windows: which requests pass, what is told, and, on a refusal, the
      limit named, the soft one first, and its window as the time to wait. */
  ghost predicate IsResultFor(r: RateLimitResult, policy: Policy, soft: nat, hard: nat) {
    && r.policy == policy
    && (r.allowed
        <==> (policy.softLimit <= 0 || soft < policy.softLimit) && (policy.hardLimit <= 0 || hard < policy.hardLimit))
    && (r.allowed ==> r.softCount == soft + 1 && r.hardCount == hard + 1 && r.retryAfter == 0 && r.limitType.NoLimit?)
    && (!r.allowed ==> r.softCount == soft && r.hardCount == hard)
    && (!r.allowed && 0 < policy.softLimit <= soft ==> r.limitType.Soft? && r.retryAfter == policy.softWindow)
    && (!r.allowed && !(0 < policy.softLimit <= soft) ==> r.limitType.Hard? && r.retryAfter == policy.hardWindow)
  }

  /** In every run of either store a result is that for the requests really let through in the two windows;
      Redis counts those exactly one soft window ago as well, when that is the shorter one. */
  lemma {:induction false} ResultMeaning(states: seq<Backend>, reqs: seq<Request>, members: seq<string>,
                                         results: seq<RateLimitResult>, i: nat)
    requires LimiterRun(states, reqs, members, results) && Suits(states[0].inMemory, reqs) && i < |reqs|
    ensures var q := reqs[i];
            var edge := !states[0].inMemory && q.policy.softWindow < q.policy.hardWindow;
            IsResultFor(results[i], q.policy,
                        |PassedSince(reqs, results, q.key, i, q.now - q.policy.softWindow as real, edge)|,
                        |PassedSince(reqs, results, q.key, i, q.now - q.policy.hardWindow as real, false)|)
  {
    LimiterRunFollowsHistory(states, reqs, members, results);
    AdmittedIsHistory(reqs, results, reqs[i].key, !states[0].inMemory, i);
    VerdictMeaning(reqs, results, i, !states[0].inMemory);
  }

  lemma {:induction false} VerdictMeaning(reqs: seq<Request>, results: seq<RateLimitResult>, i: nat, inclusive: bool)
    requires |results| == |reqs| && i < |reqs|
    requires results[i] == Verdict(AdmittedTimes(reqs, results, reqs[i].key, i), reqs[i], inclusive)
    ensures var q := reqs[i];
            var edge := inclusive && q.policy.softWindow < q.policy.hardWindow;
            IsResultFor(results[i], q.policy,
                        |PassedSince(reqs, results, q.key, i, q.now - q.policy.softWindow as real, edge)|,
                        |PassedSince(reqs, results, q.key, i, q.now - q.policy.hardWindow as real, false)|)
  {
    var q := reqs[i];
    var edge := inclusive && q.policy.softWindow < q.policy.hardWindow;
    PassedSinceCounts(reqs, results, q.key, i, q.SoftCutoff(), edge);
    PassedSinceCounts(reqs, results, q.key, i, q.HardCutoff(), false);
    DecideMeaning(|PassedSince(reqs, results, q.key, i, q.SoftCutoff(), edge)|,
                  |PassedSince(reqs, results, q.key, i, q.HardCutoff(), false)|, q.policy);
  }

  /** A request passes within a limit of zero or less, or while fewer than the limit have passed. */
  ghost predicate Within(limit: int, passed: set<nat>) {
    limit <= 0 || |passed| < limit
  }

  /** The i-th request passes if and only if both counts are below their limits. */
  ghost predicate PassesAsCounted(reqs: seq<Request>, results: seq<RateLimitResult>, i: nat, inMemory: bool)
    requires |results| == |reqs| && i < |reqs|
  {
    var q := reqs[i];
    var edge := !inMemory && q.policy.softWindow < q.policy.hardWindow;
    var lastSoft := PassedSince(reqs, results, q.key, i, q.now - q.policy.softWindow as real, edge);
    var lastHard := PassedSince(reqs, results, q.key, i, q.now - q.policy.hardWindow as real, false);
    results[i].allowed <==> Within(q.policy.softLimit, lastSoft) && Within(q.policy.hardLimit, lastHard)
  }

  lemma {:induction false} PassesExactly(states: seq<Backend>, reqs: seq<Request>, members: seq<string>,
                                         results: seq<RateLimitResult>, i: nat)
    requires LimiterRun(states, reqs, members, results) && Suits(states[0].inMemory, reqs) && i < |reqs|
    ensures PassesAsCounted(reqs, results, i, states[0].inMemory)
  {
    ResultMeaning(states, reqs, members, results, i);
  }

  /** The same with the parts of the request and the sets spelled out. */
  lemma {:induction false} PassesBy(reqs: seq<Request>, results: seq<RateLimitResult>, i: nat, inMemory: bool,
                                    key: string, now: real, policy: Policy, lastSoft: set<nat>, lastHard: set<nat>)
    requires |results| == |reqs| && i < |reqs| && reqs[i] == Request(key, now, policy)
    requires PassesAsCounted(reqs, results, i, inMemory)
    requires lastSoft == PassedSince(reqs, results, key, i, now - policy.softWindow as real,
                                     !inMemory && policy.softWindow < policy.hardWindow)
    requires lastHard == PassedSince(reqs, results, key, i, now - policy.hardWindow as real, false)
    ensures results[i].allowed <==> Within(policy.softLimit, lastSoft) && Within(policy.hardLimit, lastHard)
  {
  }

  lemma {:induction false} DecideMeaning(soft: nat, hard: nat, policy: Policy)
    ensures IsResultFor(Decide(soft, hard, policy), policy, soft, hard)
  {
  }

  // ----- the twins

  /** From the same recorded times the two stores find the same hard count, and soft counts that
      differ by the entries on the soft cutoff (unless the windows are equal). */
  lemma {:induction false} TwinCounts(scores: map<string, real>, log: seq<real>, q: Request)
    requires forall c :: ScoresMatch(scores, log, c)
    requires q.policy.softWindow <= q.policy.hardWindow
    ensures var kept, zset := After(log, q.HardCutoff()), ZRemRangeByScore(scores, q.HardCutoff());
            && ZCount(zset, q.HardCutoff()) == |kept|
            && ZCount(zset, q.SoftCutoff()) - |After(kept, q.SoftCutoff())|
               == if q.policy.softWindow < q.policy.hardWindow then CountAt(log, q.SoftCutoff()) else 0
  {
    var h, s := q.HardCutoff(), q.SoftCutoff();
    ZCountSplits(ZRemRangeByScore(scores, h), h);
    ZCountSplits(ZRemRangeByScore(scores, h), s);
    PrunedScores(scores, h, h);
    PrunedScores(scores, h, s);
    AfterAfter(log, h, s);
    assert ScoresMatch(scores, log, h) && ScoresMatch(scores, log, s);
  }

  /** The i-th request finds no admitted time exactly on its soft cutoff, or has equal windows. */
  ghost predicate OffBoundary(reqs: seq<Request>, i: nat)
    requires i < |reqs|
  {
    || reqs[i].policy.softWindow == reqs[i].policy.hardWindow
    || CountAt(History(reqs[..i], reqs[i].key, false), reqs[i].SoftCutoff()) == 0
  }

  ghost predicate NoBoundaryHit(reqs: seq<Request>) {
    forall i {:trigger OffBoundary(reqs, i)} :: 0 <= i < |reqs| ==> OffBoundary(reqs, i)
  }

  lemma {:induction false} SameVerdict(hist: seq<real>, q: Request)
    requires q.policy.softWindow <= q.policy.hardWindow
    ensures Verdict(hist, q, true) == Verdict(hist, q, false)
       <==> q.policy.softWindow == q.policy.hardWindow || CountAt(hist, q.SoftCutoff()) == 0
  {
  }

  lemma {:induction false} SameHistoryStep(reqs: seq<Request>, key: string, n: nat)
    requires n < |reqs| && OffBoundary(reqs, n) && Steady(reqs)
    requires History(reqs[..n], key, true) == History(reqs[..n], key, false)
    ensures History(reqs[..n + 1], key, true) == History(reqs[..n + 1], key, false)
  {
    HistoryStep(reqs, n, key, true);
    HistoryStep(reqs, n, key, false);
    if reqs[n].key == key {
      SameVerdict(History(reqs[..n], key, false), reqs[n]);
    }
  }

  lemma {:induction false} SameHistories(reqs: seq<Request>, key: string, n: nat)
    requires NoBoundaryHit(reqs) && Steady(reqs) && n <= |reqs|
    ensures History(reqs[..n], key, true) == History(reqs[..n], key, false)
    decreases n
  {
    if n != 0 {
      SameHistories(reqs, key, n - 1);
      SameHistoryStep(reqs, key, n - 1);
    }
  }

  /** Both stores answer the same at every step if and only if no request with a shorter soft window
      finds an admitted time exactly on its soft cutoff. */
  lemma {:induction false} TwinsAgree(stores: seq<Store>, spaces: seq<Keyspace>, reqs: seq<Request>,
                                      members: seq<string>, memory: seq<RateLimitResult>, redis: seq<RateLimitResult>)
    requires MemoryRun(stores, reqs, memory) && RedisRun(spaces, reqs, members, redis) && Steady(reqs)
    ensures memory == redis <==> NoBoundaryHit(reqs)
  {
    SteadyAdvances(reqs);
    PruningIsUnobservable(stores, reqs, memory);
    ExpiryIsUnobservable(spaces, reqs, members, redis);
    if NoBoundaryHit(reqs) {
      forall i | 0 <= i < |reqs|
        ensures memory[i] == redis[i]
      {
        AgreeWhenOff(reqs, memory, redis, i);
      }
    }
    if memory == redis {
      forall i | 0 <= i < |reqs|
        ensures OffBoundary(reqs, i)
      {
        OffWhenAgree(reqs, memory, i);
      }
    }
  }

  lemma {:induction false} AgreeWhenOff(reqs: seq<Request>, memory: seq<RateLimitResult>, redis: seq<RateLimitResult>,
                                        i: nat)
    requires FromHistory(reqs, memory, false) && FromHistory(reqs, redis, true) && Steady(reqs)
    requires NoBoundaryHit(reqs) && i < |reqs|
    ensures memory[i] == redis[i]
  {
    SameHistories(reqs, reqs[i].key, i);
    assert OffBoundary(reqs, i);
    SameVerdict(History(reqs[..i], reqs[i].key, false), reqs[i]);
  }

  lemma {:induction false} OffWhenAgree(reqs: seq<Request>, results: seq<RateLimitResult>, i: nat)
    requires FromHistory(reqs, results, false) && FromHistory(reqs, results, true) && Steady(reqs) && i < |reqs|
    ensures OffBoundary(reqs, i)
  {
    AdmittedIsHistory(reqs, results, reqs[i].key, false, i);
    AdmittedIsHistory(reqs, results, reqs[i].key, true, i);
    assert results[i] == Verdict(History(reqs[..i], reqs[i].key, false), reqs[i], true);
    SameVerdict(History(reqs[..i], reqs[i].key, false), reqs[i]);
  }

  // ----- the unused path

  /** The path that decides from counts alone disagrees with the stores on one family of inputs only:
      the hard count stands exactly at its limit and the soft limit does not block. */
  lemma {:induction false} LegacyPathDisagrees(softCount: nat, hardCount: nat, policy: Policy)
    ensures ComputeResult(softCount, hardCount, policy, false, false).allowed
              != Decide(softCount, hardCount, policy).allowed
       <==> policy.hardLimit > 0 && hardCount == policy.hardLimit && !Blocks(policy.softLimit, softCount)
  {
  }
}
