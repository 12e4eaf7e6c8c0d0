/** The three walks over the tokens of a traceroute line: probes, addresses with their host names, and
    the grouping of probes by the address that answered. */
module TracerouteTokens {
  import opened Common
  import opened AddressFilter
  import opened Grouping

  /** A token as the walks tell them apart.  `Paren` is text in parentheses, which may be an address. */
  datatype Token =
    | Star
    | Ip(ip: IpText)
    | Paren(inner: IpText)
    | Num(text: string, rtt: real)
    | Ms
    | Word(text: string)

  function Spelling(t: Token): string {
    match t
    case Star => "*"
    case Ip(ip) => ip.spelling
    case Paren(inner) => "(" + inner.spelling + ")"
    case Num(text, _) => text
    case Ms => "ms"
    case Word(text) => text
  }

  datatype Probe = Timeout | Reply(rtt: real)

  predicate ParenAt(tokens: seq<Token>, i: nat) {
    i < |tokens| && tokens[i].Paren?
  }

  predicate MsAt(tokens: seq<Token>, i: nat) {
    i < |tokens| && tokens[i].Ms?
  }

  // ----- probes

  /** What the token at `i` contributes: a number directly before parentheses is taken for a host name. */
  function ProbeAt(tokens: seq<Token>, i: nat): seq<Probe>
    requires i < |tokens|
  {
    if tokens[i].Star? then [Timeout]
    else if tokens[i].Num? && !ParenAt(tokens, i + 1) then [Reply(tokens[i].rtt)]
    else []
  }

  function ProbesUpTo(tokens: seq<Token>, n: nat): seq<Probe>
    requires n <= |tokens|
  {
    if n == 0 then [] else ProbesUpTo(tokens, n - 1) + ProbeAt(tokens, n - 1)
  }

  function ProbesOf(tokens: seq<Token>): seq<Probe> {
    ProbesUpTo(tokens, |tokens|)
  }

  method ParseProbes(tokens: seq<Token>) returns (probes: seq<Probe>)
    ensures probes == ProbesOf(tokens)
  {
    probes := [];
    var i := 0;
    while i < |tokens|
      invariant i <= |tokens|
      invariant probes == ProbesUpTo(tokens, i)
    {
      var t := tokens[i];
      if t.Star? {
        probes := probes + [Timeout];
        i := i + 1;
      } else if t.Ip? {
        i := i + 1;
        if ParenAt(tokens, i) {
          i := i + 1;
        }
      } else if ParenAt(tokens, i + 1) {
        i := i + 2;
      } else if t.Num? {
        probes := probes + [Reply(t.rtt)];
        i := if MsAt(tokens, i + 1) then i + 2 else i + 1;
      } else {
        i := i + 1;
      }
    }
  }

  // ----- probes and measurements

  predicate IsMeasure(t: Token) {
    t.Star? || t.Num?
  }

  function ProbeOf(t: Token): Probe
    requires IsMeasure(t)
  {
    if t.Star? then Timeout else Reply(t.rtt)
  }

  /** The positions of the `*` and number tokens among the first `n`. */
  function PositionsUpTo(tokens: seq<Token>, n: nat): (ps: seq<nat>)
    requires n <= |tokens|
    ensures forall j :: 0 <= j < |ps| ==> ps[j] < n && IsMeasure(tokens[ps[j]])
  {
    if n == 0 then []
    else PositionsUpTo(tokens, n - 1) + if IsMeasure(tokens[n - 1]) then [n - 1] else []
  }

  /** They are all of them, in order. */
  lemma {:induction false} PositionsMeaning(tokens: seq<Token>, n: nat)
    requires n <= |tokens|
    ensures forall i, j :: 0 <= i < j < |PositionsUpTo(tokens, n)| ==>
              PositionsUpTo(tokens, n)[i] < PositionsUpTo(tokens, n)[j]
    ensures forall k: nat :: k in PositionsUpTo(tokens, n) <==> k < n && (tokens[k].Star? || tokens[k].Num?)
    decreases n
  {
    if n != 0 {
      PositionsMeaning(tokens, n - 1);
    }
  }

  function Positions(tokens: seq<Token>): (ps: seq<nat>)
    ensures forall j :: 0 <= j < |ps| ==> ps[j] < |tokens| && IsMeasure(tokens[ps[j]])
  {
    PositionsUpTo(tokens, |tokens|)
  }

  /** The numbers lost among the first `n` tokens because parentheses follow directly. */
  function LostUpTo(tokens: seq<Token>, n: nat): nat
    requires n <= |tokens|
  {
    if n == 0 then 0
    else LostUpTo(tokens, n - 1) + if tokens[n - 1].Num? && ParenAt(tokens, n) then 1 else 0
  }

  /** No number stands directly before parentheses. */
  predicate Clean(tokens: seq<Token>) {
    forall i: nat :: i < |tokens| && tokens[i].Num? ==> !ParenAt(tokens, i + 1)
  }

  lemma {:induction false} LostUpToMeaning(tokens: seq<Token>, n: nat)
    requires n <= |tokens|
    ensures LostUpTo(tokens, n) == 0 <==> forall i: nat :: i < n && tokens[i].Num? ==> !ParenAt(tokens, i + 1)
  {
    if n != 0 {
      LostUpToMeaning(tokens, n - 1);
    }
  }

  lemma {:induction false} EveryMeasureOrLost(tokens: seq<Token>, n: nat)
    requires n <= |tokens|
    ensures |ProbesUpTo(tokens, n)| + LostUpTo(tokens, n) == |PositionsUpTo(tokens, n)|
  {
    if n != 0 {
      EveryMeasureOrLost(tokens, n - 1);
    }
  }

  /** One probe for every `*` and every number, exactly when no number stands directly before
      parentheses. */
  lemma {:induction false} OneProbePerMeasure(tokens: seq<Token>)
    ensures |ProbesOf(tokens)| <= |Positions(tokens)|
    ensures |ProbesOf(tokens)| == |Positions(tokens)| <==> Clean(tokens)
  {
    EveryMeasureOrLost(tokens, |tokens|);
    LostUpToMeaning(tokens, |tokens|);
  }

  /** In a clean line the j-th probe is what the j-th measurement says. */
  lemma {:induction false} CleanProbes(tokens: seq<Token>, n: nat)
    requires n <= |tokens| && Clean(tokens)
    ensures |ProbesUpTo(tokens, n)| == |PositionsUpTo(tokens, n)|
    ensures forall j :: 0 <= j < |ProbesUpTo(tokens, n)| ==>
              ProbesUpTo(tokens, n)[j] == ProbeOf(tokens[PositionsUpTo(tokens, n)[j]])
  {
    if n != 0 {
      CleanProbes(tokens, n - 1);
    }
  }

  // ----- addresses

  /** One entry of a dictionary that remembers the order of insertion. */
  datatype Entry = Entry(ip: IpText, hostname: Option<string>)

  predicate HasKey(m: seq<Entry>, ip: IpText) {
    exists i :: 0 <= i < |m| && m[i].ip == ip
  }

  predicate UniqueEntries(m: seq<Entry>) {
    forall i, j :: 0 <= i < j < |m| ==> m[i].ip != m[j].ip
  }

  function Lookup(m: seq<Entry>, ip: IpText): Option<string> {
    if m == [] then None else if m[0].ip == ip then m[0].hostname else Lookup(m[1..], ip)
  }

  /** An address already known keeps its first host name. */
  function AddNew(m: seq<Entry>, ip: IpText, hostname: Option<string>): seq<Entry> {
    if HasKey(m, ip) then m else m + [Entry(ip, hostname)]
  }

  /** The map after the walk has gone on from position `i`. */
  function MapFrom(tokens: seq<Token>, i: nat, m: seq<Entry>): seq<Entry>
    requires i <= |tokens|
    decreases |tokens| - i
  {
    if i == |tokens| then m
    else
      var t := tokens[i];
      if t.Star? then MapFrom(tokens, i + 1, m)
      else if t.Ip? then
        if ParenAt(tokens, i + 1) then MapFrom(tokens, i + 2, AddNew(m, t.ip, Some(tokens[i + 1].inner.spelling)))
        else MapFrom(tokens, i + 1, AddNew(m, t.ip, None))
      else if ParenAt(tokens, i + 1) then
        var inner := tokens[i + 1].inner;
        MapFrom(tokens, i + 2, if inner.parsed.Some? then AddNew(m, inner, Some(Spelling(t))) else m)
      else if t.Num? && MsAt(tokens, i + 1) then MapFrom(tokens, i + 2, m)
      else MapFrom(tokens, i + 1, m)
  }

  function MapOf(tokens: seq<Token>): seq<Entry> {
    MapFrom(tokens, 0, [])
  }

  method ExtractIpHostnameMap(tokens: seq<Token>) returns (m: seq<Entry>)
    ensures m == MapOf(tokens)
  {
    m := [];
    var i := 0;
    while i < |tokens|
      invariant i <= |tokens|
      invariant MapFrom(tokens, i, m) == MapOf(tokens)
    {
      var t := tokens[i];
      if t.Star? {
        i := i + 1;
      } else if t.Ip? {
        var hostname := None;
        i := i + 1;
        if ParenAt(tokens, i) {
          hostname := Some(tokens[i].inner.spelling);
          i := i + 1;
        }
        if !HasKey(m, t.ip) {
          m := m + [Entry(t.ip, hostname)];
        }
      } else if ParenAt(tokens, i + 1) {
        var inner := tokens[i + 1].inner;
        if inner.parsed.Some? && !HasKey(m, inner) {
          m := m + [Entry(inner, Some(Spelling(t)))];
        }
        i := i + 2;
      } else if t.Num? {
        i := i + 1;
        if MsAt(tokens, i) {
          i := i + 1;
        }
      } else {
        i := i + 1;
      }
    }
  }

  /** The entry is what the tokens at `k` say: an address, with the text in parentheses after it if any,
      or an address in parentheses, named by the token before it. */
  predicate IsNamedAt(tokens: seq<Token>, k: nat, e: Entry)
    requires k < |tokens|
  {
    || (tokens[k] == Ip(e.ip)
        && e.hostname == if ParenAt(tokens, k + 1) then Some(tokens[k + 1].inner.spelling) else None)
    || (ParenAt(tokens, k + 1) && tokens[k + 1].inner == e.ip && e.ip.parsed.Some?
        && !tokens[k].Ip? && !tokens[k].Star? && e.hostname.Some? && IsTextOf(e.hostname.value, tokens[k]))
  }

  /** The token reads like this. */
  predicate IsTextOf(text: string, t: Token) {
    match t
    case Word(word) => text == word
    case Num(digits, _) => text == digits
    case Ms => text == "ms"
    case Paren(inner) => |text| >= 2 && text[0] == '(' && text[|text| - 1] == ')'
        && text[1..|text| - 1] == inner.spelling
    case Star => text == "*"
    case Ip(ip) => text == ip.spelling
  }

  /** Some tokens from position `i` on say this. */
  ghost predicate IsNamed(tokens: seq<Token>, i: nat, e: Entry) {
    exists k: nat :: i <= k < |tokens| && IsNamedAt(tokens, k, e)
  }

  /** The map has one entry per address, keeps what it had, holds every bare address, and each new
      entry is what some tokens of the line say. */
  lemma {:induction false} MapFromKeys(tokens: seq<Token>, i: nat, m: seq<Entry>)
    requires i <= |tokens| && UniqueEntries(m)
    ensures UniqueEntries(MapFrom(tokens, i, m)) && m <= MapFrom(tokens, i, m)
    ensures forall k :: i <= k < |tokens| && tokens[k].Ip? ==> HasKey(MapFrom(tokens, i, m), tokens[k].ip)
    ensures forall j :: |m| <= j < |MapFrom(tokens, i, m)| ==> IsNamed(tokens, i, MapFrom(tokens, i, m)[j])
    decreases |tokens| - i
  {
    if i < |tokens| {
      var next, m' := MapStep(tokens, i, m);
      MapFromKeys(tokens, next, m');
      var all := MapFrom(tokens, next, m');
      assert forall j :: 0 <= j < |m'| ==> all[j] == m'[j];
      forall k | i <= k < |tokens| && tokens[k].Ip?
        ensures HasKey(all, tokens[k].ip)
      {
        if k == i {
          var j :| 0 <= j < |m'| && m'[j].ip == tokens[k].ip;
          assert all[j].ip == tokens[k].ip;
        }
      }
      forall j | |m| <= j < |all|
        ensures IsNamed(tokens, i, all[j])
      {
        if j < |m'| {
          assert j == |m| && IsNamedAt(tokens, i, all[j]);
        } else {
          assert IsNamed(tokens, next, all[j]);
        }
      }
    }
  }

  /** A word or a number gives its name to an address in parentheses right after it: then the address has an entry. */
  lemma {:induction false} NamedAddressesAreMapped(tokens: seq<Token>, i: nat, m: seq<Entry>, k: nat)
    requires i <= k < |tokens| && UniqueEntries(m)
    requires (tokens[k].Word? || tokens[k].Num?) && ParenAt(tokens, k + 1) && tokens[k + 1].inner.parsed.Some?
    ensures HasKey(MapFrom(tokens, i, m), tokens[k + 1].inner)
    decreases |tokens| - i
  {
    var next, m' := MapStep(tokens, i, m);
    if k == i {
      MapFromKeys(tokens, next, m');
      var j :| 0 <= j < |m'| && m'[j].ip == tokens[k + 1].inner;
      assert MapFrom(tokens, next, m')[j].ip == tokens[k + 1].inner;
    } else {
      NamedAddressesAreMapped(tokens, next, m', k);
    }
  }

  /** One step of the walk: at most one entry is added, for what stands here. */
  lemma {:induction false} MapStep(tokens: seq<Token>, i: nat, m: seq<Entry>) returns (next: nat, m': seq<Entry>)
    requires i < |tokens| && UniqueEntries(m)
    ensures next == i + 1 || (next == i + 2 <= |tokens| && (tokens[i + 1].Paren? || tokens[i + 1].Ms?))
    ensures (tokens[i].Word? || tokens[i].Num?) && ParenAt(tokens, i + 1) && tokens[i + 1].inner.parsed.Some? ==>
              HasKey(m', tokens[i + 1].inner)
    ensures MapFrom(tokens, i, m) == MapFrom(tokens, next, m')
    ensures UniqueEntries(m') && m <= m' && |m'| <= |m| + 1
    ensures tokens[i].Ip? ==> HasKey(m', tokens[i].ip)
    ensures |m'| > |m| ==> IsNamedAt(tokens, i, m'[|m|])
  {
    var t := tokens[i];
    next, m' := i + 1, m;
    if t.Star? {
    } else if t.Ip? {
      var hostname := None;
      if ParenAt(tokens, i + 1) {
        next, hostname := i + 2, Some(tokens[i + 1].inner.spelling);
      }
      m' := AddNew(m, t.ip, hostname);
      assert |m'| > |m| ==> m'[|m|] == Entry(t.ip, hostname);
    } else if ParenAt(tokens, i + 1) {
      next := i + 2;
      var inner := tokens[i + 1].inner;
      if inner.parsed.Some? {
        m' := AddNew(m, inner, Some(Spelling(t)));
        assert |m'| > |m| ==> m'[|m|] == Entry(inner, Some(Spelling(t)));
      }
    } else if t.Num? && MsAt(tokens, i + 1) {
      next := i + 2;
    }
  }

  // ----- grouping

  /** The address that answered, its host name, and its probes. */
  type Path = Group<IpText, Option<string>, Probe>

  /** The bare address nearest to the left of position `p`. */
  function NearestIp(tokens: seq<Token>, p: nat): Option<IpText>
    requires p <= |tokens|
  {
    if p == 0 then None
    else if tokens[p - 1].Ip? then Some(tokens[p - 1].ip)
    else NearestIp(tokens, p - 1)
  }

  /** `ip` is the last bare address before position `p`. */
  predicate IsLastBefore(tokens: seq<Token>, p: nat, ip: IpText)
    requires p <= |tokens|
  {
    exists k :: 0 <= k < p && tokens[k] == Ip(ip) && forall m :: k < m < p ==> !tokens[m].Ip?
  }

  /** The nearest address is the one with no other between; there is none if and only if no bare address
      stands before. */
  lemma {:induction false} NearestMeaning(tokens: seq<Token>, p: nat)
    requires p <= |tokens|
    ensures forall ip :: NearestIp(tokens, p) == Some(ip) <==> IsLastBefore(tokens, p, ip)
    ensures NearestIp(tokens, p) == None <==> forall k :: 0 <= k < p ==> !tokens[k].Ip?
    decreases p
  {
    if p != 0 {
      NearestMeaning(tokens, p - 1);
      forall ip
        ensures NearestIp(tokens, p) == Some(ip) <==> IsLastBefore(tokens, p, ip)
      {
        NearestStep(tokens, p, ip);
      }
    }
  }

  lemma {:induction false} NearestStep(tokens: seq<Token>, p: nat, ip: IpText)
    requires 0 < p <= |tokens|
    requires NearestIp(tokens, p - 1) == Some(ip) <==> IsLastBefore(tokens, p - 1, ip)
    ensures NearestIp(tokens, p) == Some(ip) <==> IsLastBefore(tokens, p, ip)
  {
    if tokens[p - 1].Ip? {
      assert tokens[p - 1] == Ip(tokens[p - 1].ip);
    } else {
      if IsLastBefore(tokens, p - 1, ip) {
        var k :| 0 <= k < p - 1 && tokens[k] == Ip(ip) && forall m :: k < m < p - 1 ==> !tokens[m].Ip?;
        assert forall m :: k < m < p ==> !tokens[m].Ip?;
      }
      if IsLastBefore(tokens, p, ip) {
        var k :| 0 <= k < p && tokens[k] == Ip(ip) && forall m :: k < m < p ==> !tokens[m].Ip?;
        assert forall m :: k < m < p - 1 ==> !tokens[m].Ip?;
      }
    }
  }

  /** For each measurement among the first `n` tokens, the bare address nearest to its left. */
  function OwnersUpTo(tokens: seq<Token>, n: nat): seq<Option<IpText>>
    requires n <= |tokens|
  {
    if n == 0 then []
    else OwnersUpTo(tokens, n - 1) + if IsMeasure(tokens[n - 1]) then [NearestIp(tokens, n - 1)] else []
  }

  lemma {:induction false} OwnersAreNearest(tokens: seq<Token>, n: nat)
    requires n <= |tokens|
    ensures |OwnersUpTo(tokens, n)| == |PositionsUpTo(tokens, n)|
    ensures forall j :: 0 <= j < |OwnersUpTo(tokens, n)| ==>
              OwnersUpTo(tokens, n)[j] == NearestIp(tokens, PositionsUpTo(tokens, n)[j])
  {
    if n != 0 {
      OwnersAreNearest(tokens, n - 1);
    }
  }

  /** The owner of the j-th measurement is the last bare address before it; it has none if and only if no
      bare address stands before it. */
  lemma {:induction false} OwnersMeaning(tokens: seq<Token>, j: nat)
    requires j < |Positions(tokens)|
    ensures |OwnersUpTo(tokens, |tokens|)| == |Positions(tokens)|
    ensures var owner, p := OwnersUpTo(tokens, |tokens|)[j], Positions(tokens)[j];
            && (forall ip :: owner == Some(ip) <==> IsLastBefore(tokens, p, ip))
            && (owner == None <==> forall k :: 0 <= k < p ==> !tokens[k].Ip?)
  {
    OwnersAreNearest(tokens, |tokens|);
    NearestMeaning(tokens, Positions(tokens)[j]);
  }

  /** Where the j-th probe belongs: to the owner of the j-th measurement, or to `first` when it has none. */
  function KeyFor(tokens: seq<Token>, first: IpText, j: nat): IpText {
    var owners := OwnersUpTo(tokens, |tokens|);
    if j < |owners| && owners[j].Some? then owners[j].value else first
  }

  function KeysFor(tokens: seq<Token>, first: IpText, n: nat): (keys: seq<IpText>)
    ensures |keys| == n
  {
    seq(n, j requires 0 <= j < n => KeyFor(tokens, first, j))
  }

  function Hostnames(keys: seq<IpText>, m: seq<Entry>): (names: seq<Option<string>>)
    ensures |names| == |keys|
  {
    seq(|keys|, j requires 0 <= j < |keys| => Lookup(m, keys[j]))
  }

  function GroupsOf(tokens: seq<Token>, probes: seq<Probe>, m: seq<Entry>): seq<Path> {
    if |m| <= 1 then []
    else
      var keys := KeysFor(tokens, m[0].ip, |probes|);
      Grouped(keys, Hostnames(keys, m), probes, |probes|)
  }

  method GroupProbesByIp(tokens: seq<Token>, probes: seq<Probe>, m: seq<Entry>) returns (paths: seq<Path>)
    ensures paths == GroupsOf(tokens, probes, m)
  {
    if |m| <= 1 {
      return [];
    }
    var assignment := AssignProbes(tokens, |probes|);
    paths := [];
    ghost var keys := KeysFor(tokens, m[0].ip, |probes|);
    for idx := 0 to |probes|
      invariant paths == Grouped(keys, Hostnames(keys, m), probes, idx)
    {
      var key := if assignment[idx].Some? then assignment[idx].value else m[0].ip;
      paths := AddTo(paths, key, Lookup(m, key), probes[idx]);
    }
  }

  /** The walk that decides which address each of `n` probes belongs to. */
  method AssignProbes(tokens: seq<Token>, n: nat) returns (assignment: seq<Option<IpText>>)
    ensures |assignment| == n
    ensures forall j :: 0 <= j < n ==>
              assignment[j] == if j < |OwnersUpTo(tokens, |tokens|)| then OwnersUpTo(tokens, |tokens|)[j] else None
  {
    assignment := seq(n, _ => None);
    var i, idx := 0, 0;
    var current: Option<IpText> := None;
    while i < |tokens| && idx < n
      invariant i <= |tokens|
      invariant idx == |OwnersUpTo(tokens, i)| <= n == |assignment|
      invariant current == NearestIp(tokens, i)
      invariant assignment[..idx] == OwnersUpTo(tokens, i)
      invariant forall j :: idx <= j < n ==> assignment[j] == None
      decreases |tokens| - i
    {
      var t := tokens[i];
      if t.Ip? {
        current := Some(t.ip);
        i := i + 1;
        if ParenAt(tokens, i) {
          i := i + 1;
        }
      } else if IsMeasure(t) {
        if current.Some? {
          assignment := assignment[idx := current];
        }
        idx := idx + 1;
        i := i + 1;
        if t.Num? && MsAt(tokens, i) {
          i := i + 1;
        }
      } else {
        i := i + 1;
      }
    }
    OwnersExtend(tokens, i, |tokens|);
  }

  lemma {:induction false} OwnersExtend(tokens: seq<Token>, n: nat, n': nat)
    requires n <= n' <= |tokens|
    ensures OwnersUpTo(tokens, n) <= OwnersUpTo(tokens, n')
    decreases n'
  {
    if n < n' {
      OwnersExtend(tokens, n, n' - 1);
    }
  }
}
