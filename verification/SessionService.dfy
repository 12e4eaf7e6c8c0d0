/** Sessions kept twice, as database rows and in the cache: creation, revocation and logout, and what
    the two stores say about each other. */
module SessionService {
  import opened Common
  import opened SessionStore

  /** A row of the session table; token hashes are unique there. */
  datatype Row = Row(user: Option<UserId>, token: Token)

  datatype Stores = Stores(cache: Cache, rows: map<nat, Row>)

  predicate HasToken(rows: map<nat, Row>, t: Token) {
    exists id :: id in rows && rows[id].token == t
  }

  // ----- operations on values

  /** The rows revoked together: those of a user, but for one token that may be spared. */
  function Doomed(rows: map<nat, Row>, u: UserId, spared: Option<Token>): set<nat> {
    set id | id in rows && rows[id].user == Some(u) && spared != Some(rows[id].token)
  }

  function TokensOf(rows: map<nat, Row>, ids: set<nat>): set<Token> {
    set id | id in ids && id in rows :: rows[id].token
  }

  function RemoveRows(rows: map<nat, Row>, ids: set<nat>): map<nat, Row> {
    map id | id in rows && id !in ids :: rows[id]
  }

  function Removed(s: Stores, ids: set<nat>): Stores {
    Stores(DeletedAll(s.cache, TokensOf(s.rows, ids)), RemoveRows(s.rows, ids))
  }

  function LoggedOut(s: Stores, t: Token): Stores {
    Stores(DeletedAll(s.cache, {t}), RemoveRows(s.rows, set id | id in s.rows && s.rows[id].token == t))
  }

  /** Creating a session: first the limit of the user is enforced on the cache; a token that is already
      in the table fails the insertion, and then nothing is cached. */
  ghost predicate IsCreate(s: Stores, user: Option<UserId>, t: Token, id: nat, at: int, max: int, s': Stores,
                           ok: bool) {
    exists evicted: set<Token> ::
      && (if user.Some? then IsEviction(s.cache, user.value, max, evicted) else evicted == {})
      && (ok <==> !HasToken(s.rows, t))
      && s' == if ok
               then Stores(Created(DeletedAll(s.cache, evicted), t, user, at), s.rows[id := Row(user, t)])
               else s.(cache := DeletedAll(s.cache, evicted))
  }

  class SessionService {
    const cache: SessionCache
    var rows: map<nat, Row>

    ghost function State(): Stores
      reads this, cache
    {
      Stores(cache.State(), rows)
    }

    constructor ()
      ensures fresh(cache) && State() == Stores(Cache(map[], map[]), map[])
    {
      cache := new SessionCache();
      rows := map[];
    }

    method Create(user: Option<UserId>, t: Token, id: nat, at: int, max: int) returns (ok: bool)
      requires id !in rows
      modifies this, cache
      ensures IsCreate(old(State()), user, t, id, at, max, State(), ok)
    {
      ghost var evicted := {};
      DeletingNothing(cache.State());
      if user.Some? {
        evicted := cache.EnforceConcurrentLimit(user.value, max);
      }
      if HasToken(rows, t) {
        return false;
      }
      rows := rows[id := Row(user, t)];
      cache.CreateSession(t, user, at);
      ok := true;
    }

    /** Resolves a token: whether or not it is cached, the row decides. */
    method Lookup(t: Token) returns (found: Option<nat>)
      ensures found.Some? <==> HasToken(rows, t)
      ensures found.Some? ==> found.value in rows && rows[found.value].token == t
    {
      var cached := t in cache.hashes;
      if cached {
        if HasToken(rows, t) {
          var id :| id in rows && rows[id].token == t;
          return Some(id);
        }
        return None;
      }
      if HasToken(rows, t) {
        var id :| id in rows && rows[id].token == t;
        return Some(id);
      }
      return None;
    }

    method Revoke(id: nat) returns (t: Option<Token>)
      modifies this, cache
      ensures t == if id in old(rows) then Some(old(rows)[id].token) else None
      ensures State() == Removed(old(State()), {id})
    {
      if id !in rows {
        assert TokensOf(rows, {id}) == {};
        assert RemoveRows(rows, {id}) == rows;
        DeletingNothing(cache.State());
        return None;
      }
      t := Some(rows[id].token);
      DropRow(id);
    }

    /** One session leaves both stores. */
    method DropRow(id: nat)
      requires id in rows
      modifies this, cache
      ensures State() == Removed(old(State()), {id})
    {
      var token := rows[id].token;
      assert TokensOf(rows, {id}) == {token};
      rows := RemoveRows(rows, {id});
      cache.DeleteSession(token);
    }

    method Logout(t: Token)
      modifies this, cache
      ensures State() == LoggedOut(old(State()), t)
    {
      rows := RemoveRows(rows, set id | id in rows && rows[id].token == t);
      cache.DeleteSession(t);
    }

    /** Revokes one of several sessions, unless it is the one to spare. */
    method RevokeUnlessSpared(id: nat, spared: Option<Token>, ghost before: Stores, ghost done: set<nat>)
      returns (revoked: bool)
      requires State() == Removed(before, done) && id in before.rows && id !in done
      modifies this, cache
      ensures revoked <==> spared != Some(before.rows[id].token)
      ensures State() == Removed(before, if revoked then done + {id} else done)
    {
      revoked := spared != Some(rows[id].token);
      if revoked {
        DropRow(id);
        RemovingMore(before, done, id);
      }
    }

    /** Revokes session after session, in whatever order the query returns them. */
    method RevokeAllForUser(u: UserId, spared: Option<Token>) returns (count: nat)
      modifies this, cache
      ensures State() == Removed(old(State()), Doomed(old(rows), u, spared))
      ensures count == |Doomed(old(rows), u, spared)|
    {
      var pending := set id | id in rows && rows[id].user == Some(u);
      count := 0;
      ghost var before, done := State(), {};
      ghost var doomed := Doomed(rows, u, spared);
      RemovingNothing(before);
      while pending != {}
        invariant State() == Removed(before, done)
        invariant forall id :: id in pending ==> id in before.rows && id !in done
        invariant forall id :: id in doomed <==> id in done || (id in pending && spared != Some(before.rows[id].token))
        invariant count == |done|
        decreases |pending|
      {
        var id :| id in pending;
        var revoked := RevokeUnlessSpared(id, spared, before, done);
        if revoked {
          done := done + {id};
          count := count + 1;
        }
        pending := pending - {id};
      }
      assert done == doomed;
    }
  }

  lemma {:induction false} RemovingNothing(s: Stores)
    ensures Removed(s, {}) == s
  {
    assert TokensOf(s.rows, {}) == {} && RemoveRows(s.rows, {}) == s.rows;
    DeletingNothing(s.cache);
  }

  lemma {:induction false} RemovingMore(s: Stores, ids: set<nat>, id: nat)
    requires id in s.rows && id !in ids
    ensures Removed(Removed(s, ids), {id}) == Removed(s, ids + {id})
  {
    var t := s.rows[id].token;
    assert TokensOf(s.rows, ids + {id}) == TokensOf(s.rows, ids) + {t};
    assert TokensOf(Removed(s, ids).rows, {id}) == {t};
    DeletingMore(s.cache, TokensOf(s.rows, ids), t);
    assert RemoveRows(s.rows, ids + {id}) == RemoveRows(RemoveRows(s.rows, ids), {id});
  }

  // ----- what every run keeps

  ghost predicate UniqueTokens(rows: map<nat, Row>) {
    forall i, j :: i in rows && j in rows && rows[i].token == rows[j].token ==> i == j
  }

  ghost predicate HasRow(rows: map<nat, Row>, user: Option<UserId>, t: Token) {
    exists id :: id in rows && rows[id] == Row(user, t)
  }

  /** Every cached session of a user has its row. */
  ghost predicate Consistent(s: Stores) {
    && UniqueTokens(s.rows)
    && forall t :: t in s.cache.hashes && s.cache.hashes[t].user.Some? ==> HasRow(s.rows, s.cache.hashes[t].user, t)
  }

  datatype Op =
    | Create(user: Option<UserId>, token: Token, id: nat, at: int, max: int, ok: bool)
    | Revoke(id: nat)
    | RevokeAll(who: UserId, spared: Option<Token>)
    | Logout(token: Token)
    | Touch(token: Token)
    | Expire(token: Token)

  ghost predicate Step(s: Stores, op: Op, s': Stores) {
    match op
    case Create(user, t, id, at, max, ok) => id !in s.rows && IsCreate(s, user, t, id, at, max, s', ok)
    case Revoke(id) => s' == Removed(s, {id})
    case RevokeAll(u, spared) => s' == Removed(s, Doomed(s.rows, u, spared))
    case Logout(t) => s' == LoggedOut(s, t)
    case Touch(t) => s' == s.(cache := Touched(s.cache, t))
    case Expire(t) => s' == s.(cache := Expired(s.cache, t))
  }

  /** Removing rows together with their cached tokens. */
  lemma {:induction false} RemovingKeepsConsistent(s: Stores, ids: set<nat>)
    requires Consistent(s)
    ensures Consistent(Removed(s, ids))
  {
    var r := Removed(s, ids);
    forall t | t in r.cache.hashes && r.cache.hashes[t].user.Some?
      ensures HasRow(r.rows, r.cache.hashes[t].user, t)
    {
      var id :| id in s.rows && s.rows[id] == Row(s.cache.hashes[t].user, t);
      assert id !in ids by {
        assert id in ids ==> t in TokensOf(s.rows, ids);
      }
      assert id in r.rows && r.rows[id] == s.rows[id];
    }
  }

  lemma {:induction false} CreatingKeepsConsistent(s: Stores, user: Option<UserId>, t: Token, id: nat, at: int,
                                                   evicted: set<Token>)
    requires Consistent(s) && id !in s.rows && !HasToken(s.rows, t)
    ensures Consistent(Stores(Created(DeletedAll(s.cache, evicted), t, user, at), s.rows[id := Row(user, t)]))
  {
    var rows := s.rows[id := Row(user, t)];
    var cache := Created(DeletedAll(s.cache, evicted), t, user, at);
    assert rows[id] == Row(user, t);
    forall k | k in cache.hashes && cache.hashes[k].user.Some?
      ensures HasRow(rows, cache.hashes[k].user, k)
    {
      if k != t {
        var i :| i in s.rows && s.rows[i] == Row(s.cache.hashes[k].user, k);
        assert rows[i] == s.rows[i];
      }
    }
  }

  lemma {:induction false} StepKeepsConsistent(s: Stores, op: Op, s': Stores)
    requires Consistent(s) && Step(s, op, s')
    ensures Consistent(s')
  {
    match op
    case Create(user, t, id, at, max, ok) =>
      var evicted: set<Token> :|
        && (if user.Some? then IsEviction(s.cache, user.value, max, evicted) else evicted == {})
        && s' == if ok
                 then Stores(Created(DeletedAll(s.cache, evicted), t, user, at), s.rows[id := Row(user, t)])
                 else s.(cache := DeletedAll(s.cache, evicted));
      if ok {
        CreatingKeepsConsistent(s, user, t, id, at, evicted);
      }
    case Revoke(id) => RemovingKeepsConsistent(s, {id});
    case RevokeAll(u, spared) => RemovingKeepsConsistent(s, Doomed(s.rows, u, spared));
    case Logout(t) =>
      forall k | k in s'.cache.hashes && s'.cache.hashes[k].user.Some?
        ensures HasRow(s'.rows, s'.cache.hashes[k].user, k)
      {
        var i :| i in s.rows && s.rows[i] == Row(s.cache.hashes[k].user, k);
        assert s'.rows[i] == s.rows[i];
      }
    case Touch(t) =>
    case Expire(t) =>
  }

  ghost predicate ServiceRun(states: seq<Stores>, ops: seq<Op>) {
    && |states| == |ops| + 1 && states[0] == Stores(Cache(map[], map[]), map[])
    && forall i :: 0 <= i < |ops| ==> Step(states[i], ops[i], states[i + 1])
  }

  /** In every run, at every point, each cached session of a user has a row with that token and user. */
  lemma {:induction false} EveryRunIsConsistent(states: seq<Stores>, ops: seq<Op>, n: nat)
    requires ServiceRun(states, ops) && n <= |ops|
    ensures Consistent(states[n])
  {
    if n != 0 {
      EveryRunIsConsistent(states, ops, n - 1);
      StepKeepsConsistent(states[n - 1], ops[n - 1], states[n]);
    }
  }

  /** A cached session of a user is revoked exactly when its row is. */
  lemma {:induction false} RevokedTogether(s: Stores, u: UserId, spared: Option<Token>, v: UserId, t: Token)
    requires Consistent(s) && t in Live(s.cache, v)
    ensures t in TokensOf(s.rows, Doomed(s.rows, u, spared)) <==> v == u && spared != Some(t)
  {
    var id :| id in s.rows && s.rows[id] == Row(Some(v), t);
    if v == u && spared != Some(t) {
      assert id in Doomed(s.rows, u, spared);
    }
  }

  /** After all sessions of a user have been revoked, exactly the rows of other users and of the token
      spared are left, unchanged; the count is the number of rows gone. */
  lemma {:induction false} RevocationIsComplete(s: Stores, u: UserId, spared: Option<Token>)
    requires Consistent(s)
    ensures var doomed := Doomed(s.rows, u, spared); var after := Removed(s, doomed);
            && (forall id :: id in after.rows <==>
                  id in s.rows && (s.rows[id].user != Some(u) || spared == Some(s.rows[id].token)))
            && (forall id :: id in after.rows ==> after.rows[id] == s.rows[id])
            && |after.rows| + |doomed| == |s.rows|
  {
    var doomed := Doomed(s.rows, u, spared);
    var after := Removed(s, doomed);
    assert s.rows.Keys == after.rows.Keys + doomed;
    assert |s.rows.Keys| == |after.rows.Keys| + |doomed|;
  }

  lemma {:induction false} RevocationClearsCache(s: Stores, u: UserId, spared: Option<Token>, v: UserId)
    requires Consistent(s)
    ensures Live(Removed(s, Doomed(s.rows, u, spared)).cache, v)
              == if v == u then (set t | t in Live(s.cache, u) && spared == Some(t)) else Live(s.cache, v)
  {
    forall t | t in Live(s.cache, v)
      ensures t in TokensOf(s.rows, Doomed(s.rows, u, spared)) <==> v == u && spared != Some(t)
    {
      RevokedTogether(s, u, spared, v, t);
    }
  }

  // ----- which tokens resolve

  predicate Opens(op: Op, t: Token) {
    op.Create? && op.ok && op.token == t
  }

  /** A revocation, alone or with others, or a logout of this token. */
  predicate Ends(s: Stores, op: Op, t: Token) {
    match op
    case Revoke(id) => id in s.rows && s.rows[id].token == t
    case RevokeAll(u, spared) => t in TokensOf(s.rows, Doomed(s.rows, u, spared))
    case Logout(token) => token == t
    case _ => false
  }

  lemma {:induction false} RemovedTokens(s: Stores, ids: set<nat>, t: Token)
    requires Consistent(s)
    ensures HasToken(Removed(s, ids).rows, t) <==> HasToken(s.rows, t) && t !in TokensOf(s.rows, ids)
  {
    if HasToken(s.rows, t) && t !in TokensOf(s.rows, ids) {
      var id :| id in s.rows && s.rows[id].token == t;
      assert id in Removed(s, ids).rows && Removed(s, ids).rows[id].token == t;
    }
  }

  /** One step on the tokens that resolve: neither the limit on sessions nor the end of a cached hash takes one away. */
  lemma {:induction false} StepOnTokens(s: Stores, op: Op, s': Stores, t: Token)
    requires Consistent(s) && Step(s, op, s')
    ensures HasToken(s'.rows, t) <==> Opens(op, t) || (HasToken(s.rows, t) && !Ends(s, op, t))
  {
    match op
    case Create(user, token, id, at, max, ok) =>
      if ok {
        assert s'.rows == s.rows[id := Row(user, token)] && s'.rows[id].token == token;
        if HasToken(s.rows, t) {
          var k :| k in s.rows && s.rows[k].token == t;
          assert k in s'.rows && s'.rows[k].token == t;
        }
      }
    case Revoke(id) =>
      RemovedTokens(s, {id}, t);
      assert t in TokensOf(s.rows, {id}) <==> Ends(s, op, t);
    case RevokeAll(u, spared) => RemovedTokens(s, Doomed(s.rows, u, spared), t);
    case Logout(token) =>
      if HasToken(s.rows, t) && token != t {
        var id :| id in s.rows && s.rows[id].token == t;
        assert id in s'.rows && s'.rows[id].token == t;
      }
    case Touch(_) =>
    case Expire(_) =>
  }

  /** The i-th operation has opened the token, and none up to the n-th has ended it. */
  ghost predicate OpenSince(states: seq<Stores>, ops: seq<Op>, i: nat, n: nat, t: Token)
    requires |states| == |ops| + 1 && i < n <= |ops|
  {
    Opens(ops[i], t) && forall k :: i < k < n ==> !Ends(states[k], ops[k], t)
  }

  /** In every run a token resolves if and only if a creation has opened it and no later revocation or logout
      has ended it: a session whose cached hash has been evicted for the limit, or has expired, still does. */
  lemma {:induction false} ResolvesExactly(states: seq<Stores>, ops: seq<Op>, n: nat, t: Token)
    requires ServiceRun(states, ops) && n <= |ops|
    ensures HasToken(states[n].rows, t) <==> exists i :: 0 <= i < n && OpenSince(states, ops, i, n, t)
    decreases n
  {
    if n != 0 {
      ResolvesExactly(states, ops, n - 1, t);
      EveryRunIsConsistent(states, ops, n - 1);
      StepOnTokens(states[n - 1], ops[n - 1], states[n], t);
      if Opens(ops[n - 1], t) {
        assert OpenSince(states, ops, n - 1, n, t);
      } else if HasToken(states[n].rows, t) {
        var i :| 0 <= i < n - 1 && OpenSince(states, ops, i, n - 1, t);
        assert OpenSince(states, ops, i, n, t);
      } else if i :| 0 <= i < n && OpenSince(states, ops, i, n, t) {
        assert OpenSince(states, ops, i, n - 1, t);
      }
    }
  }

  /** In every run a creation succeeds if and only if its token is not one that resolves. */
  lemma {:induction false} CreationSucceedsExactly(states: seq<Stores>, ops: seq<Op>, n: nat)
    requires ServiceRun(states, ops) && n < |ops| && ops[n].Create?
    ensures ops[n].ok <==> !exists i :: 0 <= i < n && OpenSince(states, ops, i, n, ops[n].token)
    ensures ops[n].ok ==>
              ops[n].id in states[n + 1].rows && states[n + 1].rows[ops[n].id] == Row(ops[n].user, ops[n].token)
    ensures !ops[n].ok ==> states[n + 1].rows == states[n].rows
  {
    assert Step(states[n], ops[n], states[n + 1]);
    ResolvesExactly(states, ops, n, ops[n].token);
  }
}
