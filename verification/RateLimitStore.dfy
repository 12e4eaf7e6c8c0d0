/** The sliding-window rate limiter: an in-memory log of admitted times per key, and its twin,
    a Redis sorted set edited by a Lua script.

    Times are reals.  A key of the store that is absent and a key with an empty log mean the same. */
module RateLimitStore {

  datatype Policy = Policy(softLimit: int, hardLimit: int, softWindow: int, hardWindow: int) {
    /** The soft or the hard pair of window and limit. */
    function Window(soft: bool): int { if soft then softWindow else hardWindow }
    function Limit(soft: bool): int { if soft then softLimit else hardLimit }
  }

  datatype LimitType = Soft | Hard | NoLimit

  datatype RateLimitResult = RateLimitResult(
    allowed: bool, softCount: int, hardCount: int, policy: Policy, retryAfter: int, limitType: LimitType)

  /** One call of the limiter, with the clock reading it makes. */
  datatype Request = Request(key: string, now: real, policy: Policy) {
    function SoftCutoff(): real { now - policy.softWindow as real }
    function HardCutoff(): real { now - policy.hardWindow as real }
  }

  function RateLimitKey(keyType: string, identifier: string): string {
    "ratelimit:" + keyType + ":" + identifier
  }

  // ----- counting in logs

  /** The entries strictly newer than `cutoff`, in order. */
  function After(log: seq<real>, cutoff: real): seq<real> {
    if log == [] then []
    else
      var rest := After(log[..|log| - 1], cutoff);
      if log[|log| - 1] > cutoff then rest + [log[|log| - 1]] else rest
  }

  /** The number of entries at exactly `time`. */
  function CountAt(log: seq<real>, time: real): nat {
    if log == [] then 0
    else CountAt(log[..|log| - 1], time) + if log[|log| - 1] == time then 1 else 0
  }

  /** The number of entries in the half-open interval (lo, hi]. */
  function CountIn(log: seq<real>, lo: real, hi: real): nat {
    if log == [] then 0
    else CountIn(log[..|log| - 1], lo, hi) + if lo < log[|log| - 1] <= hi then 1 else 0
  }

  // ----- the decision

  /** A limit of zero (or less) never blocks. */
  predicate Blocks(limit: int, count: int) {
    limit > 0 && count >= limit
  }

  predicate Refuses(policy: Policy, softCount: int, hardCount: int) {
    Blocks(policy.softLimit, softCount) || Blocks(policy.hardLimit, hardCount)
  }

  /** `decision` is the store's own verdict, when it made one; without it the verdict is taken from
      the counts (the "legacy" path). */
  function ComputeResult(softCount: int, hardCount: int, policy: Policy, decided: bool,
                         decision: bool): RateLimitResult {
    if decided then
      if decision then RateLimitResult(true, softCount, hardCount, policy, 0, NoLimit)
      else if Blocks(policy.softLimit, softCount) then
        RateLimitResult(false, softCount, hardCount, policy, policy.softWindow, Soft)
      else RateLimitResult(false, softCount, hardCount, policy, policy.hardWindow, Hard)
    else if Blocks(policy.softLimit, softCount) then
      RateLimitResult(false, softCount, hardCount, policy, policy.softWindow, Soft)
    else if policy.hardLimit > 0 && hardCount > policy.hardLimit then
      RateLimitResult(false, softCount, hardCount, policy, policy.hardWindow, Hard)
    else RateLimitResult(true, softCount, hardCount, policy, 0, NoLimit)
  }

  /** The result for the counts found before recording; an admitted request counts itself. */
  function Decide(softCount: int, hardCount: int, policy: Policy): RateLimitResult {
    if Refuses(policy, softCount, hardCount) then ComputeResult(softCount, hardCount, policy, true, false)
    else ComputeResult(softCount + 1, hardCount + 1, policy, true, true)
  }

  // ----- the reference limiter: it keeps every admitted time forever

  /** The verdict on `q` when `history` holds every admitted time of the key.  With `inclusive`, the
      soft window also counts entries lying exactly on its cutoff, as the Lua script does; when the
      two windows are equal those entries have just been pruned as hard-expired. */
  function Verdict(history: seq<real>, q: Request, inclusive: bool): RateLimitResult {
    var boundary := if inclusive && q.policy.softWindow < q.policy.hardWindow
                    then CountAt(history, q.SoftCutoff()) else 0;
    Decide(|After(history, q.SoftCutoff())| + boundary, |After(history, q.HardCutoff())|, q.policy)
  }

  /** Every time the reference limiter admitted for `key`. */
  function History(reqs: seq<Request>, key: string, inclusive: bool): seq<real> {
    if reqs == [] then []
    else
      var past := History(reqs[..|reqs| - 1], key, inclusive);
      var q := reqs[|reqs| - 1];
      if q.key == key && Verdict(past, q, inclusive).allowed then past + [q.now] else past
  }

  // ----- the in-memory store

  type Store = map<string, seq<real>>

  function LogIn(store: Store, key: string): seq<real> {
    if key in store then store[key] else []
  }

  /** What one check does to the log of its key, and what it answers. */
  function CheckLog(log: seq<real>, q: Request): (seq<real>, RateLimitResult) {
    var kept := After(log, q.HardCutoff());
    var result := Decide(|After(kept, q.SoftCutoff())|, |kept|, q.policy);
    (if result.allowed then kept + [q.now] else kept, result)
  }

  /** One check of the in-memory store: the log of the key is updated, no other log changes. */
  ghost predicate StoreStep(store: Store, q: Request, store': Store, r: RateLimitResult) {
    && (LogIn(store', q.key), r) == CheckLog(LogIn(store, q.key), q)
    && forall k :: k != q.key ==> LogIn(store', k) == LogIn(store, k)
  }

  /** The number of entries in the window that ends at `now`, as pages display it. */
  function Displayed(store: Store, key: string, window: int, now: real): nat {
    |After(LogIn(store, key), now - window as real)|
  }

  class SlidingWindowRateLimiter {
    var store: Store

    constructor ()
      ensures store == map[]
    {
      store := map[];
    }

    method CheckDb(keyType: string, identifier: string, policy: Policy, now: real) returns (r: RateLimitResult)
      modifies this
      ensures StoreStep(old(store), Request(RateLimitKey(keyType, identifier), now, policy), store, r)
    {
      var key := RateLimitKey(keyType, identifier);
      var q := Request(key, now, policy);
      if key !in store {
        store := store[key := []];
      }
      store := store[key := After(store[key], q.HardCutoff())];

      var softCount := |After(store[key], q.SoftCutoff())|;
      var hardCount := |store[key]|;
      if Refuses(policy, softCount, hardCount) {
        r := ComputeResult(softCount, hardCount, policy, true, false);
        return;
      }

      store := store[key := store[key] + [now]];
      softCount := softCount + 1;
      hardCount := hardCount + 1;
      if |store| > 10000 {
        DropStaleKeys();
      }
      r := ComputeResult(softCount, hardCount, policy, true, true);
    }

    /** Deletes up to 1000 keys with empty logs, whichever come first. */
    method DropStaleKeys()
      modifies this
      ensures forall k :: LogIn(store, k) == LogIn(old(store), k)
      ensures store.Keys <= old(store.Keys)
    {
      var stale := set k | k in store && store[k] == [];
      var dropped := 0;
      while stale != {} && dropped < 1000
        invariant forall k :: k in stale ==> k in store && store[k] == []
        invariant forall k :: LogIn(store, k) == LogIn(old(store), k)
        invariant store.Keys <= old(store.Keys)
        decreases 1000 - dropped
      {
        var k :| k in stale;
        store := map x | x in store && x != k :: store[x];
        stale := stale - {k};
        dropped := dropped + 1;
      }
    }

    /** Reads the counts of a key without touching it. */
    method CurrentCounts(keyType: string, identifier: string, softWindow: int, hardWindow: int, now: real)
      returns (softCount: nat, hardCount: nat)
      ensures var key := RateLimitKey(keyType, identifier);
              softCount == Displayed(store, key, softWindow, now) && hardCount == Displayed(store, key, hardWindow, now)
    {
      var log := LogIn(store, RateLimitKey(keyType, identifier));
      softCount := |After(log, now - softWindow as real)|;
      hardCount := |After(log, now - hardWindow as real)|;
    }
  }

  // ----- the Redis store

  /** A sorted set, its members scored by time, together with the time at which the key expires. */
  datatype SortedSet = SortedSet(scores: map<string, real>, expiresAt: real)

  type Keyspace = map<string, SortedSet>

  /** The members a command sees at time `now`: an expired key is an empty set. */
  function Scores(keys: Keyspace, key: string, now: real): map<string, real> {
    if key in keys && now < keys[key].expiresAt then keys[key].scores else map[]
  }

  function ZCount(scores: map<string, real>, min: real): nat {
    |set m | m in scores && scores[m] >= min|
  }

  function ZRemRangeByScore(scores: map<string, real>, max: real): map<string, real> {
    map m | m in scores && scores[m] > max :: scores[m]
  }

  function Ttl(policy: Policy): int {
    if policy.hardWindow * 2 > 7200 then policy.hardWindow * 2 else 7200
  }

  class RedisRateLimiter {
    var keys: Keyspace

    constructor ()
      ensures keys == map[]
    {
      keys := map[];
    }

    /** The Lua script, one command after another, followed by the reading of its reply. */
    method CheckRedis(keyType: string, identifier: string, policy: Policy, now: real, member: string)
      returns (r: RateLimitResult)
      modifies this
      ensures RedisStep(old(keys), Request(RateLimitKey(keyType, identifier), now, policy), member, keys, r)
    {
      var key := RateLimitKey(keyType, identifier);
      var q := Request(key, now, policy);
      var scores := ZRemRangeByScore(Scores(keys, key, now), q.HardCutoff());
      var softCount := ZCount(scores, q.SoftCutoff());
      var hardCount := ZCount(scores, q.HardCutoff());
      var allowed := true;
      if Refuses(policy, softCount, hardCount) {
        allowed := false;
        // The deadline of the key is not touched; a key that has already expired is gone.
        keys := keys[key := SortedSet(scores, if key in keys then keys[key].expiresAt else now)];
      } else {
        scores := scores[member := now];
        keys := keys[key := SortedSet(scores, now + Ttl(policy) as real)];
        softCount := softCount + 1;
        hardCount := hardCount + 1;
      }
      r := ComputeResult(softCount, hardCount, policy, true, allowed);
    }
  }

  /** One run of the script: what is left of the sorted set, what is added, and the answer. */
  ghost predicate RedisStep(keys: Keyspace, q: Request, member: string, keys': Keyspace, r: RateLimitResult) {
    var kept := ZRemRangeByScore(Scores(keys, q.key, q.now), q.HardCutoff());
    && r == Decide(ZCount(kept, q.SoftCutoff()), ZCount(kept, q.HardCutoff()), q.policy)
    && q.key in keys'
    && keys'[q.key].scores == (if r.allowed then kept[member := q.now] else kept)
    && (r.allowed ==> keys'[q.key].expiresAt == q.now + Ttl(q.policy) as real)
    && (!r.allowed && q.key in keys ==> keys'[q.key].expiresAt == keys[q.key].expiresAt)
    && (!r.allowed && q.key !in keys ==> kept == map[])
    && forall k :: k != q.key ==> (k in keys' <==> k in keys) && (k in keys ==> keys'[k] == keys[k])
  }

  // ----- the limiter that callers see

  /** Both stores, and which of them the configuration selects. */
  datatype Backend = Backend(inMemory: bool, store: Store, keys: Keyspace)

  /** One check goes to the selected store; the other one is left alone. */
  ghost predicate CheckStep(b: Backend, q: Request, member: string, b': Backend, r: RateLimitResult) {
    && b'.inMemory == b.inMemory
    && if b.inMemory then StoreStep(b.store, q, b'.store, r) && b'.keys == b.keys
       else RedisStep(b.keys, q, member, b'.keys, r) && b'.store == b.store
  }

  /** A generated member is not yet in the sorted set it is added to. */
  predicate IsFresh(b: Backend, key: string, member: string) {
    !b.inMemory && key in b.keys ==> member !in b.keys[key].scores
  }

  class RateLimiter {
    const inMemory: bool
    const fallback: SlidingWindowRateLimiter
    const redis: RedisRateLimiter

    ghost function State(): Backend
      reads this, fallback, redis
    {
      Backend(inMemory, fallback.store, redis.keys)
    }

    constructor (inMemory: bool)
      ensures fresh(fallback) && fresh(redis) && State() == Backend(inMemory, map[], map[])
    {
      this.inMemory := inMemory;
      fallback := new SlidingWindowRateLimiter();
      redis := new RedisRateLimiter();
    }

    method Check(keyType: string, identifier: string, policy: Policy, now: real, member: string)
      returns (r: RateLimitResult)
      modifies fallback, redis
      ensures CheckStep(old(State()), Request(RateLimitKey(keyType, identifier), now, policy), member, State(), r)
    {
      if inMemory {
        r := fallback.CheckDb(keyType, identifier, policy, now);
      } else {
        r := redis.CheckRedis(keyType, identifier, policy, now, member);
      }
    }
  }
}
