/** The session cache: hashes that expire, indexed by sets per user that do not, and the eviction of
    the oldest sessions of a user. */
module SessionStore {
  import opened Common

  /** Token hashes and user identifiers are opaque values; an empty user identifier is no user. */
  datatype Token = Token(id: nat)
  datatype UserId = UserId(id: nat)

  /** The fields of a session hash that matter here.  A hash brought back by a late touch has neither. */
  datatype Session = Session(user: Option<UserId>, createdAt: Option<int>)

  datatype Cache = Cache(hashes: map<Token, Session>, index: map<UserId, set<Token>>)

  function Indexed(c: Cache, u: UserId): set<Token> {
    if u in c.index then c.index[u] else {}
  }

  /** The live sessions of a user: those whose hash still exists and names the user. */
  function Live(c: Cache, u: UserId): set<Token> {
    set t | t in c.hashes && c.hashes[t].user == Some(u)
  }

  // ----- operations on values

  function Created(c: Cache, t: Token, user: Option<UserId>, at: int): Cache {
    Cache(c.hashes[t := Session(user, Some(at))],
          if user.Some? then c.index[user.value := Indexed(c, user.value) + {t}] else c.index)
  }

  function Touched(c: Cache, t: Token): Cache {
    if t in c.hashes then c else c.(hashes := c.hashes[t := Session(None, None)])
  }

  /** The lifetime of a hash ends: the index does not notice. */
  function Expired(c: Cache, t: Token): Cache {
    c.(hashes := Without(c.hashes, t))
  }

  /** Deletion takes a token out of the index of the user its hash names, if it names one. */
  function DeletedAll(c: Cache, ts: set<Token>): Cache {
    Cache(map t | t in c.hashes && t !in ts :: c.hashes[t],
          map u | u in c.index :: Remaining(c, u, ts))
  }

  function Remaining(c: Cache, u: UserId, ts: set<Token>): set<Token> {
    set t | t in Indexed(c, u) && !(t in ts && t in c.hashes && c.hashes[t].user == Some(u))
  }

  /** Creation times in order; a missing one sorts before all others. */
  predicate NoLater(a: Option<int>, b: Option<int>) {
    a.None? || (b.Some? && a.value <= b.value)
  }

  function CreatedAt(c: Cache, t: Token): Option<int> {
    if t in c.hashes then c.hashes[t].createdAt else None
  }

  /** How many tokens the limit takes away from an index of `n`. */
  function Excess(n: nat, max: int): nat {
    if n <= max then 0 else if max >= 0 then n - max else n
  }

  /** `evicted` is a choice of oldest tokens in the index of `u` that brings it down to `max`. */
  ghost predicate IsEviction(c: Cache, u: UserId, max: int, evicted: set<Token>) {
    && evicted <= Indexed(c, u) && |evicted| == Excess(|Indexed(c, u)|, max)
    && forall e, k :: e in evicted && k in Indexed(c, u) - evicted ==> NoLater(CreatedAt(c, e), CreatedAt(c, k))
  }

  // ----- sorting

  datatype Candidate = Candidate(createdAt: Option<int>, token: Token)

  predicate SortedByAge(s: seq<Candidate>) {
    forall i, j :: 0 <= i < j < |s| ==> NoLater(s[i].createdAt, s[j].createdAt)
  }

  function Insert(s: seq<Candidate>, c: Candidate): (r: seq<Candidate>)
    ensures |r| == |s| + 1
  {
    if s == [] || NoLater(s[|s| - 1].createdAt, c.createdAt) then s + [c]
    else Insert(s[..|s| - 1], c) + [s[|s| - 1]]
  }

  /** The stable sort of the library. */
  function SortByAge(s: seq<Candidate>): (r: seq<Candidate>)
    ensures |r| == |s|
  {
    if s == [] then [] else Insert(SortByAge(s[..|s| - 1]), s[|s| - 1])
  }

  lemma {:induction false} InsertSorts(s: seq<Candidate>, c: Candidate)
    requires SortedByAge(s)
    ensures SortedByAge(Insert(s, c)) && Elements(Insert(s, c)) == Elements(s) + {c}
  {
    if s == [] || NoLater(s[|s| - 1].createdAt, c.createdAt) {
      ElementsSnoc(s, c);
    } else {
      var init, last := s[..|s| - 1], s[|s| - 1];
      InsertSorts(init, c);
      ElementsSnoc(Insert(init, c), last);
      ElementsSnoc(init, last);
      assert init + [last] == s;
      forall i | 0 <= i < |Insert(init, c)|
        ensures NoLater(Insert(init, c)[i].createdAt, last.createdAt)
      {
        assert Insert(init, c)[i] in Elements(Insert(init, c));
      }
    }
  }

  lemma {:induction false} SortSorts(s: seq<Candidate>)
    ensures SortedByAge(SortByAge(s)) && Elements(SortByAge(s)) == Elements(s)
  {
    if s != [] {
      var init, last := s[..|s| - 1], s[|s| - 1];
      SortSorts(init);
      InsertSorts(SortByAge(init), last);
      ElementsSnoc(init, last);
      assert init + [last] == s;
    }
  }

  // ----- the cache

  class SessionCache {
    var hashes: map<Token, Session>
    var index: map<UserId, set<Token>>

    function State(): Cache
      reads this
    {
      Cache(hashes, index)
    }

    constructor ()
      ensures State() == Cache(map[], map[])
    {
      hashes, index := map[], map[];
    }

    method CreateSession(t: Token, user: Option<UserId>, at: int)
      modifies this
      ensures State() == Created(old(State()), t, user, at)
    {
      hashes := hashes[t := Session(user, Some(at))];
      if user.Some? {
        index := index[user.value := (if user.value in index then index[user.value] else {}) + {t}];
      }
    }

    method DeleteSession(t: Token)
      modifies this
      ensures State() == DeletedAll(old(State()), {t})
    {
      if t in hashes && hashes[t].user.Some? {
        var u := hashes[t].user.value;
        if u in index {
          index := index[u := index[u] - {t}];
        }
      }
      hashes := Without(hashes, t);
      ghost var after := DeletedAll(old(State()), {t});
      assert hashes == after.hashes;
      assert index == after.index by {
        forall v | v in index
          ensures index[v] == Remaining(old(State()), v, {t})
        {
        }
      }
    }

    method UpdateActivity(t: Token)
      modifies this
      ensures State() == Touched(old(State()), t)
    {
      if t !in hashes {
        hashes := hashes[t := Session(None, None)];
      }
    }

    /** Revokes the oldest indexed tokens above the limit; members of a set come in any order. */
    method EnforceConcurrentLimit(u: UserId, max: int) returns (ghost evicted: set<Token>)
      modifies this
      ensures IsEviction(old(State()), u, max, evicted)
      ensures State() == DeletedAll(old(State()), evicted)
    {
      var members := if u in index then index[u] else {};
      if |members| <= max {
        evicted := {};
        DeletingNothing(State());
        return;
      }
      var sessions := Candidates(members);
      var sorted := SortByAge(sessions);
      SortSorts(sessions);
      var excess := if max >= 0 then |members| - max else |members|;
      ghost var before := State();
      evicted := {};
      DeletingNothing(before);
      for i := 0 to excess
        invariant State() == DeletedAll(before, evicted)
        invariant evicted == Tokens(sorted[..i])
      {
        assert sorted[..i + 1] == sorted[..i] + [sorted[i]];
        TokensSnoc(sorted[..i], sorted[i]);
        DeleteSession(sorted[i].token);
        DeletingMore(before, evicted, sorted[i].token);
        evicted := evicted + {sorted[i].token};
      }
      PrefixIsEviction(before, u, max, sorted, excess);
    }

    /** The members of an index with their creation times. */
    method Candidates(members: set<Token>) returns (sessions: seq<Candidate>)
      ensures |sessions| == |members|
      ensures Elements(sessions) == set t | t in members :: Candidate(CreatedAt(State(), t), t)
    {
      sessions := [];
      var rest := members;
      while rest != {}
        invariant rest <= members && |sessions| == |members - rest|
        invariant Elements(sessions) == set t | t in members - rest :: Candidate(CreatedAt(State(), t), t)
        decreases |rest|
      {
        var t :| t in rest;
        var candidate := Candidate(CreatedAt(State(), t), t);
        ElementsSnoc(sessions, candidate);
        sessions := sessions + [candidate];
        assert members - (rest - {t}) == (members - rest) + {t};
        rest := rest - {t};
      }
      assert members - rest == members;
    }
  }

  ghost function Tokens(s: seq<Candidate>): set<Token> {
    set c | c in s :: c.token
  }

  lemma {:induction false} TokensSnoc(s: seq<Candidate>, c: Candidate)
    ensures Tokens(s + [c]) == Tokens(s) + {c.token}
  {
    assert forall x :: x in s + [c] <==> x in s || x == c;
  }

  lemma {:induction false} TokensSize(s: seq<Candidate>)
    ensures |Tokens(s)| <= |s|
  {
    if s != [] {
      var init := s[..|s| - 1];
      TokensSize(init);
      TokensSnoc(init, s[|s| - 1]);
      assert init + [s[|s| - 1]] == s;
    }
  }

  lemma {:induction false} DeletingNothing(c: Cache)
    ensures DeletedAll(c, {}) == c
  {
    var d := DeletedAll(c, {});
    assert d.hashes == c.hashes;
    forall u | u in c.index
      ensures d.index[u] == c.index[u]
    {
      assert Remaining(c, u, {}) == c.index[u];
    }
    assert d.index == c.index;
  }

  lemma {:induction false} DeletingMore(c: Cache, ts: set<Token>, t: Token)
    ensures DeletedAll(DeletedAll(c, ts), {t}) == DeletedAll(c, ts + {t})
  {
    var one, both := DeletedAll(DeletedAll(c, ts), {t}), DeletedAll(c, ts + {t});
    assert one.hashes == both.hashes;
    forall u | u in c.index
      ensures one.index[u] == both.index[u]
    {
      assert Remaining(DeletedAll(c, ts), u, {t}) == Remaining(c, u, ts + {t});
    }
    assert one.index == both.index;
  }

  /** Cutting the sorted list leaves the tokens of the index in two parts ... */
  lemma {:induction false} CutCovers(c: Cache, members: set<Token>, sorted: seq<Candidate>, n: nat)
    requires n <= |sorted| == |members|
    requires Elements(sorted) == set t | t in members :: Candidate(CreatedAt(c, t), t)
    ensures Tokens(sorted[..n]) + Tokens(sorted[n..]) == members
    ensures |Tokens(sorted[..n])| == n
  {
    var first, rest := sorted[..n], sorted[n..];
    assert sorted == first + rest;
    forall t | t in members
      ensures t in Tokens(first) + Tokens(rest)
    {
      assert Candidate(CreatedAt(c, t), t) in Elements(sorted);
    }
    forall t | t in Tokens(first) + Tokens(rest)
      ensures t in members
    {
      var x: Candidate :| x in first + rest && x.token == t;
      assert x in Elements(sorted);
    }
    TokensSize(first);
    TokensSize(rest);
    var others := Tokens(rest) - Tokens(first);
    SubsetSize(others, Tokens(rest));
    assert members == Tokens(first) + others;
    assert |members| == |Tokens(first)| + |others|;
  }

  /** ... the first of them no younger than the second. */
  lemma {:induction false} CutIsByAge(c: Cache, members: set<Token>, sorted: seq<Candidate>, n: nat, e: Token, k: Token)
    requires n <= |sorted| && SortedByAge(sorted)
    requires Elements(sorted) == set t | t in members :: Candidate(CreatedAt(c, t), t)
    requires e in Tokens(sorted[..n]) && k in Tokens(sorted[n..])
    ensures NoLater(CreatedAt(c, e), CreatedAt(c, k))
  {
    var a :| a in sorted[..n] && a.token == e;
    var b :| b in sorted[n..] && b.token == k;
    var i :| 0 <= i < n && sorted[i] == a;
    var j :| n <= j < |sorted| && sorted[j] == b;
    assert a in Elements(sorted) && b in Elements(sorted);
  }

  lemma {:induction false} PrefixIsEviction(c: Cache, u: UserId, max: int, sorted: seq<Candidate>, n: nat)
    requires |sorted| == |Indexed(c, u)| && n == Excess(|Indexed(c, u)|, max)
    requires SortedByAge(sorted)
    requires Elements(sorted) == set t | t in Indexed(c, u) :: Candidate(CreatedAt(c, t), t)
    ensures IsEviction(c, u, max, Tokens(sorted[..n]))
  {
    CutCovers(c, Indexed(c, u), sorted, n);
    var evicted := Tokens(sorted[..n]);
    forall e, k | e in evicted && k in Indexed(c, u) - evicted
      ensures NoLater(CreatedAt(c, e), CreatedAt(c, k))
    {
      CutIsByAge(c, Indexed(c, u), sorted, n, e, k);
    }
  }

  // ----- what every run keeps

  /** Live sessions are indexed and carry a creation time; an indexed token never belongs to someone else. */
  ghost predicate Sound(c: Cache) {
    && (forall u :: Live(c, u) <= Indexed(c, u))
    && (forall t :: t in c.hashes && c.hashes[t].user.Some? ==> c.hashes[t].createdAt.Some?)
    && (forall u, t :: t in Indexed(c, u) && t in c.hashes ==>
          c.hashes[t].user == Some(u) || (c.hashes[t].user.None? && c.hashes[t].createdAt.None?))
  }

  /** A token that was never handed out. */
  ghost predicate Fresh(c: Cache, t: Token) {
    t !in c.hashes && forall u :: t !in Indexed(c, u)
  }

  /** One step of the cache; a create first makes room under the limit. */
  datatype Op =
    | CreateFor(user: UserId, token: Token, at: int, max: int, evicted: set<Token>)
    | CreateAnonymous(token: Token, at: int)
    | Touch(token: Token)
    | Delete(token: Token)
    | Expire(token: Token)

  ghost predicate Step(c: Cache, op: Op, c': Cache) {
    match op
    case CreateFor(u, t, at, max, evicted) =>
      IsEviction(c, u, max, evicted) && Fresh(c, t) && c' == Created(DeletedAll(c, evicted), t, Some(u), at)
    case CreateAnonymous(t, at) => Fresh(c, t) && c' == Created(c, t, None, at)
    case Touch(t) => c' == Touched(c, t)
    case Delete(t) => c' == DeletedAll(c, {t})
    case Expire(t) => c' == Expired(c, t)
  }

  lemma {:induction false} DeletingKeepsSound(c: Cache, ts: set<Token>)
    requires Sound(c)
    ensures Sound(DeletedAll(c, ts))
  {
    var d := DeletedAll(c, ts);
    forall u
      ensures Live(d, u) <= Indexed(d, u)
    {
      assert Live(c, u) <= Indexed(c, u);
    }
    forall u, t | t in Indexed(d, u) && t in d.hashes
      ensures d.hashes[t].user == Some(u) || (d.hashes[t].user.None? && d.hashes[t].createdAt.None?)
    {
      assert t in Indexed(c, u);
    }
  }

  lemma {:induction false} StaysFresh(c: Cache, ts: set<Token>, t: Token)
    requires Fresh(c, t)
    ensures Fresh(DeletedAll(c, ts), t)
  {
    forall u
      ensures t !in Indexed(DeletedAll(c, ts), u)
    {
      assert t !in Indexed(c, u);
    }
  }

  lemma {:induction false} CreatingKeepsSound(c: Cache, t: Token, user: Option<UserId>, at: int)
    requires Sound(c) && Fresh(c, t)
    ensures Sound(Created(c, t, user, at))
  {
    var d := Created(c, t, user, at);
    forall u
      ensures Live(d, u) <= Indexed(d, u)
    {
      assert Live(c, u) <= Indexed(c, u);
      assert Live(d, u) <= Live(c, u) + (if user == Some(u) then {t} else {});
    }
    forall u, k | k in Indexed(d, u) && k in d.hashes
      ensures d.hashes[k].user == Some(u) || (d.hashes[k].user.None? && d.hashes[k].createdAt.None?)
    {
      assert k != t ==> k in Indexed(c, u);
      assert t !in Indexed(c, u);
    }
  }

  lemma {:induction false} StepKeepsSound(c: Cache, op: Op, c': Cache)
    requires Sound(c) && Step(c, op, c')
    ensures Sound(c')
  {
    match op
    case CreateFor(u, t, at, max, evicted) =>
      DeletingKeepsSound(c, evicted);
      StaysFresh(c, evicted, t);
      CreatingKeepsSound(DeletedAll(c, evicted), t, Some(u), at);
    case CreateAnonymous(t, at) => CreatingKeepsSound(c, t, None, at);
    case Touch(t) =>
      forall u
        ensures Live(c', u) <= Indexed(c', u)
      {
        assert Live(c, u) <= Indexed(c, u);
        assert Live(c', u) == Live(c, u);
      }
      assert forall u :: Indexed(c', u) == Indexed(c, u);
    case Delete(t) => DeletingKeepsSound(c, {t});
    case Expire(t) =>
      forall u
        ensures Live(c', u) <= Indexed(c', u)
      {
        assert Live(c, u) <= Indexed(c, u);
      }
      assert forall u :: Indexed(c', u) == Indexed(c, u);
  }

  ghost predicate CacheRun(states: seq<Cache>, ops: seq<Op>) {
    && |states| == |ops| + 1 && states[0] == Cache(map[], map[])
    && forall i :: 0 <= i < |ops| ==> Step(states[i], ops[i], states[i + 1])
  }

  /** In every run, at every point, the live sessions of a user are all indexed. */
  lemma {:induction false} EveryRunIsSound(states: seq<Cache>, ops: seq<Op>, n: nat)
    requires CacheRun(states, ops) && n <= |ops|
    ensures Sound(states[n])
  {
    if n != 0 {
      EveryRunIsSound(states, ops, n - 1);
      StepKeepsSound(states[n - 1], ops[n - 1], states[n]);
    }
  }

  // ----- eviction

  function Room(max: int): nat {
    if max >= 0 then max else 0
  }

  /** Stale members of the index go first, so they never cost a live session its place: what is left are
      as many live sessions as there were, or as the limit allows. */
  lemma {:induction false} EvictionKeepsAsManyAsAllowed(c: Cache, u: UserId, max: int, evicted: set<Token>)
    requires Sound(c) && IsEviction(c, u, max, evicted)
    ensures Live(DeletedAll(c, evicted), u) == Live(c, u) - evicted
    ensures |Live(c, u) - evicted| == if |Live(c, u)| <= Room(max) then |Live(c, u)| else Room(max)
  {
    var members, live := Indexed(c, u), Live(c, u);
    var kept := members - evicted;
    assert live <= members;
    assert Live(DeletedAll(c, evicted), u) == live - evicted;
    assert members == evicted + kept;
    assert |members| == |evicted| + |kept|;
    if evicted * live == {} {
      assert live - evicted == live && live <= kept;
      SubsetSize(live, kept);
    } else {
      var e :| e in evicted * live;
      forall k | k in kept
        ensures k in live
      {
        assert NoLater(CreatedAt(c, e), CreatedAt(c, k));
      }
      assert live - evicted == kept;
      SubsetSize(kept, live);
    }
  }

  /** No live session is evicted while a strictly older one is kept. */
  lemma {:induction false} EvictionIsByAge(c: Cache, u: UserId, max: int, evicted: set<Token>, gone: Token, kept: Token)
    requires Sound(c) && IsEviction(c, u, max, evicted)
    requires gone in evicted && gone in Live(c, u) && kept in Live(c, u) - evicted
    ensures c.hashes[gone].createdAt.value <= c.hashes[kept].createdAt.value
  {
    assert kept in Indexed(c, u) - evicted;
    assert NoLater(CreatedAt(c, gone), CreatedAt(c, kept));
  }

  /** Every live session was created for its user by an earlier step, at the time its hash says. */
  lemma {:induction false} LiveWasCreated(states: seq<Cache>, ops: seq<Op>, n: nat, u: UserId, t: Token)
      returns (j: nat)
    requires CacheRun(states, ops) && n <= |ops| && t in Live(states[n], u)
    ensures j < n && ops[j].CreateFor? && ops[j].user == u && ops[j].token == t
    ensures states[n].hashes[t].createdAt == Some(ops[j].at)
  {
    assert Step(states[n - 1], ops[n - 1], states[n]);
    if t in Live(states[n - 1], u) && !(ops[n - 1].CreateFor? && ops[n - 1].token == t) {
      j := LiveWasCreated(states, ops, n - 1, u, t);
    } else {
      j := n - 1;
    }
  }

  /** In every run, a create ends no session of the user that was created later than one it spares, and
      no session of anybody else. */
  lemma {:induction false} CreateEndsOldest(states: seq<Cache>, ops: seq<Op>, i: nat, gone: Token, kept: Token)
      returns (a: nat, b: nat)
    requires CacheRun(states, ops) && i < |ops| && ops[i].CreateFor?
    requires gone in Live(states[i], ops[i].user) - Live(states[i + 1], ops[i].user)
    requires kept in Live(states[i], ops[i].user) * Live(states[i + 1], ops[i].user)
    ensures a < i && ops[a].CreateFor? && ops[a].token == gone && b < i && ops[b].CreateFor? && ops[b].token == kept
    ensures ops[a].user == ops[b].user == ops[i].user && ops[a].at <= ops[b].at
    ensures forall v :: v != ops[i].user ==> Live(states[i + 1], v) == Live(states[i], v)
  {
    var c, op := states[i], ops[i];
    EveryRunIsSound(states, ops, i);
    assert Step(c, op, states[i + 1]);
    a := LiveWasCreated(states, ops, i, op.user, gone);
    b := LiveWasCreated(states, ops, i, op.user, kept);
    EvictionIsByAge(c, op.user, op.max, op.evicted, gone, kept);
    forall v | v != op.user
      ensures Live(states[i + 1], v) == Live(states[i], v)
    {
      CreateSparesOthers(c, op, states[i + 1], v);
    }
  }

  lemma {:induction false} CreateSparesOthers(c: Cache, op: Op, c': Cache, v: UserId)
    requires Sound(c) && op.CreateFor? && Step(c, op, c') && v != op.user
    ensures Live(c', v) == Live(c, v)
  {
    var u := op.user;
    assert op.evicted <= Indexed(c, u);
  }

  /** After a create in any run, the user has at most one live session more than the limit; exactly, one
      more than before or than the limit, whichever is smaller. */
  lemma {:induction false} LiveAfterCreate(states: seq<Cache>, ops: seq<Op>, i: nat)
    requires CacheRun(states, ops) && i < |ops| && ops[i].CreateFor?
    ensures var before, room := |Live(states[i], ops[i].user)|, if ops[i].max >= 0 then ops[i].max else 0;
            |Live(states[i + 1], ops[i].user)| == (if before <= room then before else room) + 1
  {
    var c, op := states[i], ops[i];
    EveryRunIsSound(states, ops, i);
    assert Step(c, op, states[i + 1]);
    EvictionKeepsAsManyAsAllowed(c, op.user, op.max, op.evicted);
    assert Live(states[i + 1], op.user) == Live(DeletedAll(c, op.evicted), op.user) + {op.token};
    assert op.token !in Live(DeletedAll(c, op.evicted), op.user);
  }

  // ----- exactly which sessions there are

  predicate Creates(op: Op, u: UserId, t: Token) {
    op.CreateFor? && op.user == u && op.token == t
  }

  /** The operation deletes this token, for a logout, a revocation or the limit. */
  predicate Deletes(op: Op, t: Token) {
    op == Delete(t) || (op.CreateFor? && t in op.evicted)
  }

  /** Created for the user by the i-th operation, and neither deleted nor expired since. */
  ghost predicate LiveSince(ops: seq<Op>, i: nat, n: nat, u: UserId, t: Token)
    requires i < n <= |ops|
  {
    Creates(ops[i], u, t) && forall k :: i < k < n ==> !Deletes(ops[k], t) && ops[k] != Expire(t)
  }

  ghost predicate IsLive(ops: seq<Op>, n: nat, u: UserId, t: Token)
    requires n <= |ops|
  {
    exists i :: 0 <= i < n && LiveSince(ops, i, n, u, t)
  }

  /** In every run the live sessions of a user are those created and neither deleted nor expired since; a
      touch makes none. */
  lemma {:induction false} LiveExactly(states: seq<Cache>, ops: seq<Op>, n: nat, u: UserId, t: Token)
    requires CacheRun(states, ops) && n <= |ops|
    ensures t in Live(states[n], u) <==> IsLive(ops, n, u, t)
    decreases n
  {
    if n != 0 {
      LiveExactly(states, ops, n - 1, u, t);
      assert Step(states[n - 1], ops[n - 1], states[n]);
      LiveStep(states[n - 1], ops[n - 1], states[n], u, t);
      IsLiveStep(ops, n - 1, u, t);
    }
  }

  lemma {:induction false} LiveStep(c: Cache, op: Op, c': Cache, u: UserId, t: Token)
    requires Step(c, op, c')
    ensures t in Live(c', u)
       <==> Creates(op, u, t) || (t in Live(c, u) && !Deletes(op, t) && op != Expire(t))
  {
  }

  lemma {:induction false} IsLiveStep(ops: seq<Op>, n: nat, u: UserId, t: Token)
    requires n < |ops|
    ensures IsLive(ops, n + 1, u, t)
       <==> Creates(ops[n], u, t) || (IsLive(ops, n, u, t) && !Deletes(ops[n], t) && ops[n] != Expire(t))
  {
    if Creates(ops[n], u, t) {
      assert LiveSince(ops, n, n + 1, u, t);
    } else if IsLive(ops, n, u, t) && !Deletes(ops[n], t) && ops[n] != Expire(t) {
      var i :| 0 <= i < n && LiveSince(ops, i, n, u, t);
      assert LiveSince(ops, i, n + 1, u, t);
    }
    if IsLive(ops, n + 1, u, t) && !Creates(ops[n], u, t) {
      var i :| 0 <= i < n + 1 && LiveSince(ops, i, n + 1, u, t);
      assert LiveSince(ops, i, n, u, t);
    }
  }

  /** Created for the user, and not deleted since while it was live: what the index holds, stale or not. */
  ghost predicate IndexedSince(ops: seq<Op>, i: nat, n: nat, u: UserId, t: Token)
    requires i < n <= |ops|
  {
    Creates(ops[i], u, t) && forall k :: i < k < n ==> !(Deletes(ops[k], t) && IsLive(ops, k, u, t))
  }

  ghost predicate IsIndexed(ops: seq<Op>, n: nat, u: UserId, t: Token)
    requires n <= |ops|
  {
    exists i :: 0 <= i < n && IndexedSince(ops, i, n, u, t)
  }

  /** In every run the index of a user holds the sessions created for it and not deleted while live: a session
      that expires stays there, and so does one deleted afterwards. */
  lemma {:induction false} IndexedExactly(states: seq<Cache>, ops: seq<Op>, n: nat, u: UserId, t: Token)
    requires CacheRun(states, ops) && n <= |ops|
    ensures t in Indexed(states[n], u) <==> IsIndexed(ops, n, u, t)
    decreases n
  {
    if n != 0 {
      IndexedExactly(states, ops, n - 1, u, t);
      assert Step(states[n - 1], ops[n - 1], states[n]);
      LiveExactly(states, ops, n - 1, u, t);
      IndexedStep(states[n - 1], ops[n - 1], states[n], u, t);
      IsIndexedStep(ops, n - 1, u, t);
    }
  }

  lemma {:induction false} IndexedStep(c: Cache, op: Op, c': Cache, u: UserId, t: Token)
    requires Step(c, op, c')
    ensures t in Indexed(c', u)
       <==> Creates(op, u, t) || (t in Indexed(c, u) && !(Deletes(op, t) && t in Live(c, u)))
  {
  }

  lemma {:induction false} IsIndexedStep(ops: seq<Op>, n: nat, u: UserId, t: Token)
    requires n < |ops|
    ensures IsIndexed(ops, n + 1, u, t)
       <==> Creates(ops[n], u, t) || (IsIndexed(ops, n, u, t) && !(Deletes(ops[n], t) && IsLive(ops, n, u, t)))
  {
    if Creates(ops[n], u, t) {
      assert IndexedSince(ops, n, n + 1, u, t);
    } else if IsIndexed(ops, n, u, t) && !(Deletes(ops[n], t) && IsLive(ops, n, u, t)) {
      var i :| 0 <= i < n && IndexedSince(ops, i, n, u, t);
      assert IndexedSince(ops, i, n + 1, u, t);
    }
    if IsIndexed(ops, n + 1, u, t) && !Creates(ops[n], u, t) {
      var i :| 0 <= i < n + 1 && IndexedSince(ops, i, n + 1, u, t);
      assert IndexedSince(ops, i, n, u, t);
    }
  }

  /** The operation makes a hash for this token. */
  predicate Makes(op: Op, t: Token) {
    op == Touch(t) || ((op.CreateFor? || op.CreateAnonymous?) && op.token == t)
  }

  ghost predicate HashedSince(ops: seq<Op>, i: nat, n: nat, t: Token)
    requires i < n <= |ops|
  {
    Makes(ops[i], t) && forall k :: i < k < n ==> !Deletes(ops[k], t) && ops[k] != Expire(t)
  }

  ghost predicate IsHashed(ops: seq<Op>, n: nat, t: Token)
    requires n <= |ops|
  {
    exists i :: 0 <= i < n && HashedSince(ops, i, n, t)
  }

  /** In every run a token has a hash exactly when an operation, be it a late touch, has made one that has been
      neither deleted nor expired since. */
  lemma {:induction false} HashedExactly(states: seq<Cache>, ops: seq<Op>, n: nat, t: Token)
    requires CacheRun(states, ops) && n <= |ops|
    ensures t in states[n].hashes <==> IsHashed(ops, n, t)
    decreases n
  {
    if n != 0 {
      HashedExactly(states, ops, n - 1, t);
      assert Step(states[n - 1], ops[n - 1], states[n]);
      HashStep(states[n - 1], ops[n - 1], states[n], t);
      IsHashedStep(ops, n - 1, t);
    }
  }

  lemma {:induction false} HashStep(c: Cache, op: Op, c': Cache, t: Token)
    requires Step(c, op, c')
    ensures t in c'.hashes <==> Makes(op, t) || (t in c.hashes && !Deletes(op, t) && op != Expire(t))
  {
  }

  lemma {:induction false} IsHashedStep(ops: seq<Op>, n: nat, t: Token)
    requires n < |ops|
    ensures IsHashed(ops, n + 1, t)
       <==> Makes(ops[n], t) || (IsHashed(ops, n, t) && !Deletes(ops[n], t) && ops[n] != Expire(t))
  {
    if Makes(ops[n], t) {
      assert HashedSince(ops, n, n + 1, t);
    } else if IsHashed(ops, n, t) && !Deletes(ops[n], t) && ops[n] != Expire(t) {
      var i :| 0 <= i < n && HashedSince(ops, i, n, t);
      assert HashedSince(ops, i, n + 1, t);
    }
    if IsHashed(ops, n + 1, t) && !Makes(ops[n], t) {
      var i :| 0 <= i < n + 1 && HashedSince(ops, i, n + 1, t);
      assert HashedSince(ops, i, n, t);
    }
  }
}
