/** Blocked addresses, the bounded walk along DNS aliases, and the filter every tool target passes. */
module AddressFilter {
  import opened Common

  datatype Address = V4(value: nat) | V6(value: nat)

  /** Text in the place of an IP address, with what parsing makes of it. */
  datatype IpText = IpText(spelling: string, parsed: Option<Address>)

  /** The addresses from `base` up to `base + size` of one family. */
  datatype Network = Network(v6: bool, base: nat, size: nat)

  function Net4(a: nat, b: nat, c: nat, d: nat, size: nat): Network {
    Network(false, ((a * 256 + b) * 256 + c) * 256 + d, size)
  }

  const BLOCKED_NETWORKS: seq<Network> := [
    Net4(0, 0, 0, 0, 0x100_0000),
    Net4(10, 0, 0, 0, 0x100_0000),
    Net4(100, 64, 0, 0, 0x40_0000),
    Net4(127, 0, 0, 0, 0x100_0000),
    Net4(169, 254, 0, 0, 0x1_0000),
    Net4(172, 16, 0, 0, 0x10_0000),
    Net4(172, 17, 0, 0, 0x1_0000),
    Net4(172, 18, 0, 0, 0x1_0000),
    Net4(192, 0, 2, 0, 0x100),
    Net4(192, 168, 0, 0, 0x1_0000),
    Net4(198, 18, 0, 0, 0x2_0000),
    Net4(198, 51, 100, 0, 0x100),
    Net4(203, 0, 113, 0, 0x100),
    Net4(224, 0, 0, 0, 0x1000_0000),
    Net4(240, 0, 0, 0, 0x1000_0000),
    Net4(255, 255, 255, 255, 1),
    Network(true, 1, 1),
    Network(true, 0xffff_0000_0000, 0x1_0000_0000),
    Network(true, 0xfc00_0000_0000_0000_0000_0000_0000_0000, 0x0200_0000_0000_0000_0000_0000_0000_0000),
    Network(true, 0xfe80_0000_0000_0000_0000_0000_0000_0000, 0x0040_0000_0000_0000_0000_0000_0000_0000),
    Network(true, 0xff00_0000_0000_0000_0000_0000_0000_0000, 0x0100_0000_0000_0000_0000_0000_0000_0000)
  ]

  predicate InNetwork(a: Address, net: Network) {
    a.V6? == net.v6 && net.base <= a.value < net.base + net.size
  }

  /** Text that is no address counts as blocked. */
  predicate IsIpBlocked(ip: IpText) {
    ip.parsed.None? || exists i :: 0 <= i < |BLOCKED_NETWORKS| && InNetwork(ip.parsed.value, BLOCKED_NETWORKS[i])
  }

  // ----- which addresses are blocked

  function FromOctets(a: nat, b: nat, c: nat, d: nat): Address {
    V4(((a * 256 + b) * 256 + c) * 256 + d)
  }

  lemma {:induction false} BlockedByOne(ip: IpText, address: Address)
    requires ip.parsed == Some(address)
    ensures IsIpBlocked(ip) <==>
              || InNetwork(address, BLOCKED_NETWORKS[0]) || InNetwork(address, BLOCKED_NETWORKS[1])
              || InNetwork(address, BLOCKED_NETWORKS[2]) || InNetwork(address, BLOCKED_NETWORKS[3])
              || InNetwork(address, BLOCKED_NETWORKS[4]) || InNetwork(address, BLOCKED_NETWORKS[5])
              || InNetwork(address, BLOCKED_NETWORKS[6]) || InNetwork(address, BLOCKED_NETWORKS[7])
              || InNetwork(address, BLOCKED_NETWORKS[8]) || InNetwork(address, BLOCKED_NETWORKS[9])
              || InNetwork(address, BLOCKED_NETWORKS[10]) || InNetwork(address, BLOCKED_NETWORKS[11])
              || InNetwork(address, BLOCKED_NETWORKS[12]) || InNetwork(address, BLOCKED_NETWORKS[13])
              || InNetwork(address, BLOCKED_NETWORKS[14]) || InNetwork(address, BLOCKED_NETWORKS[15])
              || InNetwork(address, BLOCKED_NETWORKS[16]) || InNetwork(address, BLOCKED_NETWORKS[17])
              || InNetwork(address, BLOCKED_NETWORKS[18]) || InNetwork(address, BLOCKED_NETWORKS[19])
              || InNetwork(address, BLOCKED_NETWORKS[20])
  {
    assert |BLOCKED_NETWORKS| == 21;
  }

  /** The IPv4 addresses blocked, by their octets. */
  lemma {:induction false} BlockedV4(ip: IpText, a: nat, b: nat, c: nat, d: nat)
    requires a < 256 && b < 256 && c < 256 && d < 256 && ip.parsed == Some(FromOctets(a, b, c, d))
    ensures IsIpBlocked(ip) <==>
              || a == 0 || a == 10 || a == 127 || a >= 224
              || (a == 100 && 64 <= b < 128) || (a == 169 && b == 254) || (a == 192 && b == 168)
              || (a == 172 && 16 <= b < 32) || (a == 198 && 18 <= b <= 19)
              || (a == 192 && b == 0 && c == 2) || (a == 198 && b == 51 && c == 100) || (a == 203 && b == 0 && c == 113)
  {
    BlockedByOne(ip, FromOctets(a, b, c, d));
  }

  /** The IPv6 addresses blocked, by their leading bits: the loopback address, and those that begin like
      ::ffff:0:0/96, fc00::/7, fe80::/10 and ff00::/8. */
  lemma {:induction false} BlockedV6(ip: IpText, value: nat)
    requires value < 0x1_0000_0000_0000_0000_0000_0000_0000_0000 && ip.parsed == Some(V6(value))
    ensures IsIpBlocked(ip) <==>
              || value == 1
              || value / 0x1_0000_0000 == 0xffff
              || value / 0x200_0000_0000_0000_0000_0000_0000_0000 == 0x7e
              || value / 0x40_0000_0000_0000_0000_0000_0000_0000 == 0x3fa
              || value / 0x100_0000_0000_0000_0000_0000_0000_0000 == 0xff
  {
    BlockedByOne(ip, V6(value));
  }

  /** Text that is no address is blocked. */
  lemma {:induction false} BlockedText(ip: IpText)
    requires ip.parsed.None?
    ensures IsIpBlocked(ip)
  {
  }

  predicate AllUnblocked(ips: seq<IpText>) {
    forall i :: 0 <= i < |ips| ==> !IsIpBlocked(ips[i])
  }

  // ----- the resolver

  /** A query for addresses: no such name, some other failure, or the records found, possibly none. */
  datatype Answer = NoSuchName | QueryFailed | Records(ips: seq<IpText>)

  /** A query for an alias; targets are canonical names. */
  datatype AliasAnswer = NoSuchAliasName | AliasQueryFailed | NoAlias | Alias(target: string)

  /** A deterministic resolver. */
  datatype Dns = Dns(a: string -> Answer, aaaa: string -> Answer, cname: string -> AliasAnswer)

  const CNAME_MAX_HOPS: nat := 16

  method CheckIps(ips: seq<IpText>) returns (r: Option<seq<IpText>>)
    ensures r == if AllUnblocked(ips) then Some(ips) else None
  {
    for i := 0 to |ips|
      invariant AllUnblocked(ips[..i])
    {
      if IsIpBlocked(ips[i]) {
        return None;
      }
    }
    assert ips[..|ips|] == ips;
    r := Some(ips);
  }

  // ----- what the walk should find

  /** What one name says: a final list of addresses, or the next name. */
  datatype NameReply = Stop(ips: seq<IpText>) | Follow(target: string)

  /** The address records of a name: those of the first family that has any. */
  function Found(dns: Dns, name: string): seq<IpText> {
    if dns.a(name).Records? && dns.a(name).ips != [] then dns.a(name).ips
    else if !dns.a(name).NoSuchName? && dns.aaaa(name).Records? then dns.aaaa(name).ips
    else []
  }

  function HopAt(dns: Dns, name: string): NameReply {
    if Found(dns, name) != [] then Stop(if AllUnblocked(Found(dns, name)) then Found(dns, name) else [])
    else if !dns.a(name).NoSuchName? && !dns.aaaa(name).NoSuchName? && dns.cname(name).Alias? then
      Follow(dns.cname(name).target)
    else Stop([])
  }

  /** A query that finds nothing without saying that there is no such name. */
  predicate IsSilent(answer: Answer) {
    answer == QueryFailed || answer == Records([])
  }

  /** What one name says: its IPv4 addresses if it has any; without, its IPv6 addresses if it has any; without
      either, its alias; and nothing as soon as a query tells that there is no such name. */
  lemma {:induction false} HopMeaning(dns: Dns, name: string)
    ensures forall ips :: Found(dns, name) == ips && ips != [] <==>
              ips != [] && (dns.a(name) == Records(ips) || (IsSilent(dns.a(name)) && dns.aaaa(name) == Records(ips)))
    ensures forall t :: HopAt(dns, name) == Follow(t) <==>
              IsSilent(dns.a(name)) && IsSilent(dns.aaaa(name)) && dns.cname(name) == Alias(t)
    ensures HopAt(dns, name).Stop? ==>
              HopAt(dns, name).ips == if AllUnblocked(Found(dns, name)) then Found(dns, name) else []
  {
  }

  /** The walk bounded by its number of hops alone. */
  function Walk(dns: Dns, name: string, hops: nat): seq<IpText>
    decreases hops
  {
    if hops == 0 then []
    else match HopAt(dns, name)
      case Stop(ips) => ips
      case Follow(target) => Walk(dns, target, hops - 1)
  }

  /** The name `k` aliases further on. */
  function NameAt(dns: Dns, name: string, k: nat): Option<string>
    decreases k
  {
    if k == 0 then Some(name)
    else match HopAt(dns, name)
      case Stop(_) => None
      case Follow(target) => NameAt(dns, target, k - 1)
  }

  /** Names that only refer to each other lead nowhere. */
  lemma {:induction false} LoopFindsNothing(dns: Dns, loop: set<string>, name: string, hops: nat)
    requires name in loop
    requires forall n {:trigger HopAt(dns, n)} :: n in loop ==> HopAt(dns, n).Follow? && HopAt(dns, n).target in loop
    ensures Walk(dns, name, hops) == []
    decreases hops
  {
    if hops > 0 {
      LoopFindsNothing(dns, loop, HopAt(dns, name).target, hops - 1);
    }
  }

  /** The queries made for one name. */
  method QueryName(dns: Dns, name: string) returns (hop: NameReply)
    ensures hop == HopAt(dns, name)
  {
    var a := dns.a(name);
    if a.NoSuchName? {
      return Stop([]);
    }
    if a.Records? && a.ips != [] {
      var checked := CheckIps(a.ips);
      return Stop(if checked.Some? then checked.value else []);
    }
    var aaaa := dns.aaaa(name);
    if aaaa.NoSuchName? {
      return Stop([]);
    }
    if aaaa.Records? && aaaa.ips != [] {
      var checked := CheckIps(aaaa.ips);
      return Stop(if checked.Some? then checked.value else []);
    }
    var cname := dns.cname(name);
    hop := if cname.Alias? then Follow(cname.target) else Stop([]);
  }

  lemma {:induction false} NextName(dns: Dns, name: string, k: nat)
    requires NameAt(dns, name, k).Some? && HopAt(dns, NameAt(dns, name, k).value).Follow?
    ensures NameAt(dns, name, k + 1) == Some(HopAt(dns, NameAt(dns, name, k).value).target)
    decreases k
  {
    if k == 0 {
      assert NameAt(dns, HopAt(dns, name).target, 0) == Some(HopAt(dns, name).target);
    } else {
      NextName(dns, HopAt(dns, name).target, k - 1);
    }
  }

  /** The chain up to its last name: each name before that one is an alias for the next. */
  ghost predicate IsFollowed(dns: Dns, name: string, visited: seq<string>) {
    && visited != [] && NoDuplicates(visited)
    && (forall k :: 0 <= k < |visited| ==> NameAt(dns, name, k) == Some(visited[k]))
    && (forall k {:trigger HopAt(dns, visited[k])} :: 0 <= k < |visited| - 1 ==>
          HopAt(dns, visited[k]) == Follow(visited[k + 1]))
  }

  lemma {:induction false} FollowOne(dns: Dns, name: string, visited: seq<string>, target: string)
    requires IsFollowed(dns, name, visited) && HopAt(dns, visited[|visited| - 1]) == Follow(target)
    requires target !in Elements(visited)
    ensures IsFollowed(dns, name, visited + [target])
  {
    NextName(dns, name, |visited| - 1);
    NoDuplicatesSnoc(visited, target);
  }

  /** A chain that leads back into itself finds nothing. */
  lemma {:induction false} LoopedChain(dns: Dns, name: string, visited: seq<string>, target: string, hops: nat)
    requires IsFollowed(dns, name, visited) && HopAt(dns, visited[|visited| - 1]) == Follow(target)
    requires target in Elements(visited)
    ensures Walk(dns, visited[|visited| - 1], hops) == []
  {
    forall n {:trigger HopAt(dns, n)} | n in Elements(visited)
      ensures HopAt(dns, n).Follow? && HopAt(dns, n).target in Elements(visited)
    {
      var k :| 0 <= k < |visited| && visited[k] == n;
      if k < |visited| - 1 {
        assert HopAt(dns, visited[k]) == Follow(visited[k + 1]);
      }
    }
    LoopFindsNothing(dns, Elements(visited), visited[|visited| - 1], hops);
  }

  /** The names of the alias chain from its start, as far as it is followed: until a name has something
      final to say, or leads back to a name of the chain, or `maxHops` aliases have been followed. */
  ghost predicate IsChain(dns: Dns, name: string, maxHops: nat, visited: seq<string>) {
    && IsFollowed(dns, name, visited) && |visited| <= maxHops + 1
    && var last := HopAt(dns, visited[|visited| - 1]);
       |visited| == maxHops + 1 || last.Stop? || last.target in visited
  }

  /** Core resolution: remembers the names seen, although the bound on hops alone would give the same. */
  method ResolveHostnameInner(dns: Dns, hostname: Option<string>, maxHops: nat)
      returns (ips: seq<IpText>, ghost visited: seq<string>)
    ensures ips == if hostname.None? then [] else Walk(dns, hostname.value, maxHops)
    ensures if hostname.None? then visited == [] else IsChain(dns, hostname.value, maxHops, visited)
  {
    visited := [];
    if hostname.None? {
      return [], [];
    }
    var current := hostname.value;
    var seen := {current};
    visited := [current];
    for i := 0 to maxHops
      invariant Walk(dns, hostname.value, maxHops) == Walk(dns, current, maxHops - i)
      invariant seen == Elements(visited) && |visited| == i + 1 && visited[i] == current
      invariant IsFollowed(dns, hostname.value, visited)
    {
      var hop := QueryName(dns, current);
      match hop
      case Stop(found) =>
        return found, visited;
      case Follow(target) =>
        if target in seen {
          LoopedChain(dns, hostname.value, visited, target, maxHops - i);
          return [], visited;
        }
        FollowOne(dns, hostname.value, visited, target);
        ElementsSnoc(visited, target);
        seen := seen + {target};
        visited := visited + [target];
        current := target;
    }
    ips := [];
  }

  /** The walk ends at the first name within reach that has something final to say ... */
  lemma {:induction false} WalkStopsAtFirst(dns: Dns, name: string, hops: nat, k: nat)
    requires k < hops && NameAt(dns, name, k).Some? && HopAt(dns, NameAt(dns, name, k).value).Stop?
    ensures Walk(dns, name, hops) == HopAt(dns, NameAt(dns, name, k).value).ips
    decreases hops
  {
    if k > 0 {
      WalkStopsAtFirst(dns, HopAt(dns, name).target, hops - 1, k - 1);
    }
  }

  /** ... and finds nothing when every name within reach is an alias. */
  lemma {:induction false} LongChainFindsNothing(dns: Dns, name: string, hops: nat)
    requires hops == 0 || NameAt(dns, name, hops).Some?
    ensures Walk(dns, name, hops) == []
    decreases hops
  {
    if hops > 1 {
      LongChainFindsNothing(dns, HopAt(dns, name).target, hops - 1);
    }
  }

  /** Exactly what the resolver returns: the addresses of the first name of the alias chain that has
      any, if it is among the first sixteen and none of its addresses is blocked; else nothing. */
  lemma {:induction false} WalkMeaning(dns: Dns, name: string)
    ensures Walk(dns, name, CNAME_MAX_HOPS) != [] <==>
              exists k: nat :: k < 16 && NameAt(dns, name, k).Some?
                               && Found(dns, NameAt(dns, name, k).value) != []
                               && AllUnblocked(Found(dns, NameAt(dns, name, k).value))
    ensures forall k: nat :: k < 16 && NameAt(dns, name, k).Some?
              && Found(dns, NameAt(dns, name, k).value) != []
              && AllUnblocked(Found(dns, NameAt(dns, name, k).value))
              ==> Walk(dns, name, CNAME_MAX_HOPS) == Found(dns, NameAt(dns, name, k).value)
    ensures AllUnblocked(Walk(dns, name, CNAME_MAX_HOPS))
  {
    forall k: nat | k < CNAME_MAX_HOPS && NameAt(dns, name, k).Some? && HopAt(dns, NameAt(dns, name, k).value).Stop?
      ensures Walk(dns, name, CNAME_MAX_HOPS) == HopAt(dns, NameAt(dns, name, k).value).ips
    {
      WalkStopsAtFirst(dns, name, CNAME_MAX_HOPS, k);
    }
    var k := LastName(dns, name, CNAME_MAX_HOPS);
    if k == CNAME_MAX_HOPS {
      LongChainFindsNothing(dns, name, CNAME_MAX_HOPS);
    }
  }

  /** How far the chain goes: to a name with something final to say, or `hops` aliases on. */
  lemma {:induction false} LastName(dns: Dns, name: string, hops: nat) returns (k: nat)
    ensures k <= hops && NameAt(dns, name, k).Some?
    ensures k < hops ==> HopAt(dns, NameAt(dns, name, k).value).Stop?
    decreases hops
  {
    if hops == 0 || HopAt(dns, name).Stop? {
      k := 0;
    } else {
      var rest := LastName(dns, HopAt(dns, name).target, hops - 1);
      k := rest + 1;
    }
  }

  // ----- the filter

  /** What a user may ask for: an address as written, with its canonical text, or a name, with its
      canonical form (none when it is malformed). */
  datatype Target = Literal(written: string, ip: IpText) | HostName(canonical: Option<string>)

  datatype TargetError = TargetNotAllowed | DnsResolutionFailed

  const NO_IP := IpText("", None)

  /** The overall deadline may cut the resolution short. */
  method ResolveHostname(dns: Dns, hostname: Option<string>, timedOut: bool) returns (ips: seq<IpText>)
    ensures ips == if timedOut || hostname.None? then [] else Walk(dns, hostname.value, CNAME_MAX_HOPS)
  {
    if timedOut {
      return [];
    }
    ghost var visited;
    ips, visited := ResolveHostnameInner(dns, hostname, CNAME_MAX_HOPS);
  }

  /** A target passes with the text of an address that is not blocked, canonical for a literal, or fails
      with an error, never both; a host name never fails as "not allowed", since the resolver already gives
      up on blocked addresses. */
  method FilterTarget(dns: Dns, target: Target, timedOut: bool) returns (ip: IpText, error: Option<TargetError>)
    ensures error.None? <==> !IsIpBlocked(ip)
    ensures error.Some? <==> ip == NO_IP
    ensures target.Literal? ==>
              if IsIpBlocked(target.ip) then error == Some(TargetNotAllowed) else ip == target.ip
    ensures target.HostName? ==>
              && (error.None? <==> !timedOut && target.canonical.Some?
                                   && Walk(dns, target.canonical.value, CNAME_MAX_HOPS) != [])
              && (error.None? ==> ip == Walk(dns, target.canonical.value, CNAME_MAX_HOPS)[0])
              && error != Some(TargetNotAllowed)
  {
    match target
    case Literal(_, canonical) =>
      if IsIpBlocked(canonical) {
        return NO_IP, Some(TargetNotAllowed);
      }
      return canonical, None;
    case HostName(name) =>
      var ips := ResolveHostname(dns, name, timedOut);
      if name.Some? {
        WalkMeaning(dns, name.value);
      }
      if ips == [] {
        return NO_IP, Some(DnsResolutionFailed);
      }
      for i := 0 to |ips| {
        if IsIpBlocked(ips[i]) {
          assert false;
          return NO_IP, Some(TargetNotAllowed);
        }
      }
      return ips[0], None;
  }
}
