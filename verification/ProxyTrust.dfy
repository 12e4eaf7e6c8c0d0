/** Which client address a request is attributed to behind trusted proxies. */
module ProxyTrust {
  import opened Common
  import opened Text

  /** A header with its name in lower case; values are Latin-1 text. */
  datatype Header = Header(name: string, value: string)

  /** The address and port of the connection. */
  datatype Client = Client(ip: string, port: int)

  class Scope {
    const kind: string
    const headers: seq<Header>
    var client: Option<Client>

    constructor (kind: string, headers: seq<Header>, client: Option<Client>)
      ensures this.kind == kind && this.headers == headers && this.client == client
    {
      this.kind, this.headers, this.client := kind, headers, client;
    }
  }

  /** The entries of a header value that are not blank, trimmed. */
  function Entries(parts: seq<string>): seq<string> {
    if parts == [] then []
    else
      var e := Strip(parts[|parts| - 1]);
      Entries(parts[..|parts| - 1]) + if e == "" then [] else [e]
  }

  function Hops(value: string): seq<string> {
    Entries(Split(value, ','))
  }

  /** The last line wins when a header is repeated. */
  function LastValue(headers: seq<Header>, name: string): string {
    if headers == [] then ""
    else if headers[|headers| - 1].name == name then headers[|headers| - 1].value
    else LastValue(headers[..|headers| - 1], name)
  }

  /** The value taken is that of the last header of this name; without any it is empty. */
  lemma {:induction false} LastValueMeaning(headers: seq<Header>, name: string)
    ensures (forall i :: 0 <= i < |headers| ==> headers[i].name != name) ==> LastValue(headers, name) == ""
    ensures forall i :: 0 <= i < |headers| && headers[i].name == name
                        && (forall j :: i < j < |headers| ==> headers[j].name != name)
                        ==> LastValue(headers, name) == headers[i].value
  {
    if headers != [] && headers[|headers| - 1].name != name {
      LastValueMeaning(headers[..|headers| - 1], name);
    }
  }

  /** The client named by the forwarding header, when it is long enough. */
  function ForwardedClient(value: string, trustedHops: nat): Option<string>
    requires trustedHops > 0
  {
    if |Hops(value)| >= trustedHops then Some(Hops(value)[|Hops(value)| - trustedHops]) else None
  }

  method ApplyForwardedFor(scope: Scope, configuredHops: int)
    modifies scope
    ensures (scope.kind != "http" && scope.kind != "websocket") || configuredHops <= 0 ==>
              scope.client == old(scope.client)
    ensures (scope.kind == "http" || scope.kind == "websocket") && configuredHops > 0 ==>
              match ForwardedClient(LastValue(scope.headers, "x-forwarded-for"), configuredHops)
              case None => scope.client == old(scope.client)
              case Some(ip) =>
                scope.client == Some(Client(ip, if old(scope.client).Some? then old(scope.client).value.port else 0))
  {
    var trustedHops := if configuredHops > 0 then configuredHops else 0;
    if (scope.kind == "http" || scope.kind == "websocket") && trustedHops > 0 {
      var xff := "";
      for i := 0 to |scope.headers|
        invariant xff == LastValue(scope.headers[..i], "x-forwarded-for")
      {
        assert scope.headers[..i + 1][..i] == scope.headers[..i];
        if scope.headers[i].name == "x-forwarded-for" {
          xff := scope.headers[i].value;
        }
      }
      assert scope.headers[..|scope.headers|] == scope.headers;
      if xff != "" {
        var hops := Hops(xff);
        if |hops| >= trustedHops {
          var port := if scope.client.Some? then scope.client.value.port else 0;
          scope.client := Some(Client(hops[|hops| - trustedHops], port));
        }
      } else {
        assert Entries([""]) == [];
      }
    }
  }

  // ----- what a chain of proxies makes of the header

  /** A proxy puts the address of its peer to the right of what it received. */
  function Appended(value: string, entry: string): string {
    if value == "" then entry else value + [','] + entry
  }

  /** The first `n` proxies, one after another. */
  function AppendAll(value: string, entries: seq<string>, n: nat): string
    requires n <= |entries|
  {
    if n == 0 then value else Appended(AppendAll(value, entries, n - 1), entries[n - 1])
  }

  /** What a trusted proxy writes: one entry, not blank and without a comma. */
  predicate IsEntry(e: string) {
    ',' !in e && Strip(e) != ""
  }

  lemma {:induction false} EntriesConcat(a: seq<string>, b: seq<string>)
    ensures Entries(a + b) == Entries(a) + Entries(b)
  {
    if b == [] {
      assert a + b == a;
    } else {
      var n := |b| - 1;
      EntriesConcat(a, b[..n]);
      assert (a + b)[..|a + b| - 1] == a + b[..n];
    }
  }

  /** Blank entries do not count, wherever they stand. */
  lemma {:induction false} BlankEntriesDoNotCount(left: string, blank: string, right: string)
    requires ',' !in blank && Strip(blank) == ""
    ensures Hops(left + [','] + blank + [','] + right) == Hops(left + [','] + right) == Hops(left) + Hops(right)
  {
    SplitConcat(left, right, ',');
    EntriesConcat(Split(left, ','), Split(right, ','));
    SplitConcat(left + [','] + blank, right, ',');
    SplitConcat(left, blank, ',');
    SplitSolid(blank, ',');
    EntriesConcat(Split(left, ',') + [blank], Split(right, ','));
    EntriesConcat(Split(left, ','), [blank]);
    assert Entries([blank]) == [] by {
      assert Entries([]) == [];
    }
    assert Entries(Split(left, ',')) + [] == Entries(Split(left, ','));
  }

  lemma {:induction false} HopsAppended(value: string, entry: string)
    requires IsEntry(entry)
    ensures Hops(Appended(value, entry)) == Hops(value) + [Strip(entry)]
  {
    SplitSolid(entry, ',');
    assert Entries([entry]) == [Strip(entry)] by {
      assert Entries([]) == [];
    }
    if value == "" {
      assert Strip("") == "";
      assert Entries([""]) == Entries([]) == [];
    } else {
      SplitConcat(value, entry, ',');
      EntriesConcat(Split(value, ','), [entry]);
    }
  }

  /** `hops` with the first `n` entries to its right. */
  ghost predicate IsExtended(hops: seq<string>, entries: seq<string>, n: nat, all: seq<string>) {
    && n <= |entries| && |all| == |hops| + n && hops <= all
    && forall i :: 0 <= i < n ==> all[|hops| + i] == Strip(entries[i])
  }

  lemma {:induction false} ExtendedOnce(hops: seq<string>, entries: seq<string>, n: nat, all: seq<string>)
    requires n < |entries| && IsExtended(hops, entries, n, all)
    ensures IsExtended(hops, entries, n + 1, all + [Strip(entries[n])])
  {
  }

  lemma {:induction false} HopsAppendAll(value: string, entries: seq<string>, n: nat)
    requires n <= |entries| && forall i :: 0 <= i < |entries| ==> IsEntry(entries[i])
    ensures IsExtended(Hops(value), entries, n, Hops(AppendAll(value, entries, n)))
  {
    if n != 0 {
      var before := AppendAll(value, entries, n - 1);
      HopsAppendAll(value, entries, n - 1);
      HopsAppended(before, entries[n - 1]);
      ExtendedOnce(Hops(value), entries, n - 1, Hops(before));
    }
  }

  /** Whatever text the client sent, the client chosen is the address appended by the outermost of
      the trusted proxies: what lies to its left cannot change the outcome. */
  lemma {:induction false} OutermostTrustedEntryWins(claimed: string, entries: seq<string>)
    requires |entries| > 0 && forall i :: 0 <= i < |entries| ==> IsEntry(entries[i])
    ensures ForwardedClient(AppendAll(claimed, entries, |entries|), |entries|) == Some(Strip(entries[0]))
  {
    HopsAppendAll(claimed, entries, |entries|);
  }

  /** With fewer entries than trusted hops, and only then, the peer of the connection is kept. */
  lemma {:induction false} ShortChainKeepsPeer(claimed: string, entries: seq<string>, trustedHops: nat)
    requires trustedHops > 0 && forall i :: 0 <= i < |entries| ==> IsEntry(entries[i])
    ensures ForwardedClient(AppendAll(claimed, entries, |entries|), trustedHops).None?
       <==> |Hops(claimed)| + |entries| < trustedHops
  {
    HopsAppendAll(claimed, entries, |entries|);
  }
}
