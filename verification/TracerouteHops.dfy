/** From the lines of a hop to the hop reported: probes, addresses, several paths, and the masking of
    private addresses. */
module TracerouteHops {
  import opened Common
  import opened AddressFilter
  import opened Grouping
  import opened TracerouteTokens

  datatype HopData =
    | Multipath(paths: seq<Path>, reached: bool)
    | Plain(ip: Option<IpText>, hostname: Option<string>, probes: seq<Probe>, reached: bool)

  datatype Hop = Hop(number: nat, data: HopData)

  // ----- putting the segments of a hop together

  function AllTokens(segments: seq<seq<Token>>, n: nat): seq<Token>
    requires n <= |segments|
  {
    if n == 0 then [] else AllTokens(segments, n - 1) + segments[n - 1]
  }

  function AllProbes(segments: seq<seq<Token>>, n: nat): seq<Probe>
    requires n <= |segments|
  {
    if n == 0 then [] else AllProbes(segments, n - 1) + ProbesOf(segments[n - 1])
  }

  /** A dictionary update: a known key keeps its place and takes the new host name. */
  function Put(m: seq<Entry>, e: Entry): seq<Entry> {
    if HasKey(m, e.ip) then seq(|m|, i requires 0 <= i < |m| => if m[i].ip == e.ip then e else m[i]) else m + [e]
  }

  lemma {:induction false} PutEffect(m: seq<Entry>, e: Entry)
    ensures HasKey(Put(m, e), e.ip)
    ensures |m| <= |Put(m, e)| && forall i :: 0 <= i < |m| ==> Put(m, e)[i].ip == m[i].ip
  {
    if HasKey(m, e.ip) {
      var i :| 0 <= i < |m| && m[i].ip == e.ip;
      assert Put(m, e)[i] == e;
    } else {
      assert Put(m, e)[|m|] == e;
    }
  }

  function Updated(m: seq<Entry>, other: seq<Entry>, n: nat): seq<Entry>
    requires n <= |other|
  {
    if n == 0 then m else Put(Updated(m, other, n - 1), other[n - 1])
  }

  function AllEntries(segments: seq<seq<Token>>, n: nat): seq<Entry>
    requires n <= |segments|
  {
    if n == 0 then []
    else
      var own := MapOf(segments[n - 1]);
      Updated(AllEntries(segments, n - 1), own, |own|)
  }

  function HopOf(number: nat, segments: seq<seq<Token>>): Hop {
    var n := |segments|;
    var probes, m := AllProbes(segments, n), AllEntries(segments, n);
    if |m| > 1 then Hop(number, Multipath(GroupsOf(AllTokens(segments, n), probes, m), false))
    else if |m| == 1 then Hop(number, Plain(Some(m[0].ip), Lookup(m, m[0].ip), probes, false))
    else Hop(number, Plain(None, None, if probes != [] then probes else [Timeout, Timeout, Timeout], false))
  }

  method ParseHopGroup(number: nat, segments: seq<seq<Token>>) returns (hop: Hop)
    ensures hop == HopOf(number, segments)
  {
    var allTokens: seq<Token>, allProbes: seq<Probe>, allEntries: seq<Entry> := [], [], [];
    for i := 0 to |segments|
      invariant allTokens == AllTokens(segments, i)
      invariant allProbes == AllProbes(segments, i)
      invariant allEntries == AllEntries(segments, i)
    {
      allTokens := allTokens + segments[i];
      var probes := ParseProbes(segments[i]);
      var entries := ExtractIpHostnameMap(segments[i]);
      allProbes := allProbes + probes;
      allEntries := Updated(allEntries, entries, |entries|);
    }
    if |allEntries| > 1 {
      var paths := GroupProbesByIp(allTokens, allProbes, allEntries);
      return Hop(number, Multipath(paths, false));
    }
    if |allEntries| == 1 {
      var primary := allEntries[0].ip;
      return Hop(number, Plain(Some(primary), Lookup(allEntries, primary), allProbes, false));
    }
    hop := Hop(number, Plain(None, None, if allProbes != [] then allProbes else [Timeout, Timeout, Timeout], false));
  }

  /** The address is in the map of the segment. */
  predicate Knows(segment: seq<Token>, ip: IpText) {
    HasKey(MapOf(segment), ip)
  }

  /** The i-th of the first `n` segments is the last of them to have the address. */
  ghost predicate IsLastKnowing(segments: seq<seq<Token>>, n: nat, ip: IpText, i: nat)
    requires n <= |segments|
  {
    i < n && Knows(segments[i], ip) && forall k :: i < k < n ==> !Knows(segments[k], ip)
  }

  /** The host name of an address is that of the last segment to have it ... */
  lemma {:induction false} LastSegmentNames(segments: seq<seq<Token>>, n: nat, ip: IpText, i: nat)
    requires n <= |segments| && IsLastKnowing(segments, n, ip, i)
    ensures HasKey(AllEntries(segments, n), ip) && Lookup(AllEntries(segments, n), ip) == Lookup(MapOf(segments[i]), ip)
    decreases n
  {
    SegmentNames(segments, n - 1, ip);
    if i < n - 1 {
      LastSegmentNames(segments, n - 1, ip, i);
    }
  }

  /** ... and an address that no segment has, has no entry. */
  lemma {:induction false} UnknownHasNoEntry(segments: seq<seq<Token>>, n: nat, ip: IpText)
    requires n <= |segments| && forall i :: 0 <= i < n ==> !Knows(segments[i], ip)
    ensures !HasKey(AllEntries(segments, n), ip)
    decreases n
  {
    if n != 0 {
      UnknownHasNoEntry(segments, n - 1, ip);
      SegmentNames(segments, n - 1, ip);
    }
  }

  lemma {:induction false} SegmentNames(segments: seq<seq<Token>>, n: nat, ip: IpText)
    requires n < |segments|
    ensures HasKey(AllEntries(segments, n + 1), ip) <==> HasKey(AllEntries(segments, n), ip) || Knows(segments[n], ip)
    ensures Lookup(AllEntries(segments, n + 1), ip)
              == Lookup(if Knows(segments[n], ip) then MapOf(segments[n]) else AllEntries(segments, n), ip)
  {
    var own := MapOf(segments[n]);
    MapFromKeys(segments[n], 0, []);
    UpdatedNames(AllEntries(segments, n), own, |own|, ip);
    assert own[..|own|] == own;
  }

  lemma {:induction false} PutNames(m: seq<Entry>, e: Entry, ip: IpText)
    ensures HasKey(Put(m, e), ip) <==> HasKey(m, ip) || e.ip == ip
    ensures Lookup(Put(m, e), ip) == if e.ip == ip then e.hostname else Lookup(m, ip)
  {
    PutEffect(m, e);
    if HasKey(m, e.ip) {
      var put := Put(m, e);
      assert forall i :: 0 <= i < |m| ==> put[i].ip == m[i].ip;
      if HasKey(m, ip) {
        var i :| 0 <= i < |m| && m[i].ip == ip;
        assert put[i].ip == ip;
      }
      LookupReplaced(m, put, e, ip);
    } else {
      LookupAppended(m, e, ip);
      if HasKey(m, ip) {
        var i :| 0 <= i < |m| && m[i].ip == ip;
        assert (m + [e])[i].ip == ip;
      }
    }
  }

  lemma {:induction false} LookupAppended(m: seq<Entry>, e: Entry, ip: IpText)
    requires !HasKey(m, e.ip)
    ensures Lookup(m + [e], ip) == if e.ip == ip then e.hostname else Lookup(m, ip)
  {
    if m == [] {
      assert (m + [e])[0] == e && (m + [e])[1..] == [];
    } else {
      assert m[0].ip != e.ip;
      assert (m + [e])[0] == m[0] && (m + [e])[1..] == m[1..] + [e];
      forall i | 0 <= i < |m[1..]|
        ensures m[1..][i].ip != e.ip
      {
        assert m[1..][i] == m[i + 1];
      }
      LookupAppended(m[1..], e, ip);
    }
  }

  lemma {:induction false} LookupReplaced(m: seq<Entry>, put: seq<Entry>, e: Entry, ip: IpText)
    requires |put| == |m| && forall i :: 0 <= i < |m| ==> put[i] == if m[i].ip == e.ip then e else m[i]
    ensures Lookup(put, ip) == if e.ip == ip && HasKey(m, ip) then e.hostname else Lookup(m, ip)
  {
    if m != [] {
      LookupReplaced(m[1..], put[1..], e, ip);
      if HasKey(m, ip) && m[0].ip != ip {
        var i :| 0 <= i < |m| && m[i].ip == ip;
        assert m[1..][i - 1].ip == ip;
      }
      if HasKey(m[1..], ip) {
        var i :| 0 <= i < |m[1..]| && m[1..][i].ip == ip;
        assert m[i + 1].ip == ip;
      }
    }
  }

  lemma {:induction false} UpdatedNames(m: seq<Entry>, other: seq<Entry>, n: nat, ip: IpText)
    requires n <= |other| && UniqueEntries(other)
    ensures HasKey(Updated(m, other, n), ip) <==> HasKey(m, ip) || HasKey(other[..n], ip)
    ensures Lookup(Updated(m, other, n), ip) == if HasKey(other[..n], ip) then Lookup(other[..n], ip) else Lookup(m, ip)
    decreases n
  {
    if n != 0 {
      UpdatedNames(m, other, n - 1, ip);
      PutNames(Updated(m, other, n - 1), other[n - 1], ip);
      var init, e := other[..n - 1], other[n - 1];
      assert other[..n] == init + [e];
      assert !HasKey(init, e.ip);
      LookupAppended(init, e, ip);
      KeysOfSnoc(init, e, ip);
    }
  }

  lemma {:induction false} KeysOfSnoc(m: seq<Entry>, e: Entry, ip: IpText)
    ensures HasKey(m + [e], ip) <==> HasKey(m, ip) || e.ip == ip
  {
    var all := m + [e];
    assert all[|m|] == e;
    if HasKey(m, ip) {
      var i :| 0 <= i < |m| && m[i].ip == ip;
      assert all[i].ip == ip;
    }
  }

  // ----- conservation

  function HopProbes(data: HopData): seq<Probe> {
    match data
    case Multipath(paths, _) => Joined(paths, |paths|)
    case Plain(_, _, probes, _) => probes
  }

  /** A hop reports every probe of its segments once; only a hop with neither probe nor address is
      given three timeouts. */
  lemma {:induction false} HopKeepsProbes(number: nat, segments: seq<seq<Token>>)
    ensures var probes := AllProbes(segments, |segments|);
            if probes == [] && AllEntries(segments, |segments|) == []
            then HopProbes(HopOf(number, segments).data) == [Timeout, Timeout, Timeout]
            else multiset(HopProbes(HopOf(number, segments).data)) == multiset(probes)
  {
    var n := |segments|;
    var m, probes := AllEntries(segments, n), AllProbes(segments, n);
    if |m| > 1 {
      var keys := KeysFor(AllTokens(segments, n), m[0].ip, |probes|);
      GroupedKeepsItems(keys, Hostnames(keys, m), probes);
    }
  }

  /** The measurements among the first `n` tokens. */
  function MeasuresUpTo(tokens: seq<Token>, n: nat): (ms: seq<Token>)
    requires n <= |tokens|
    ensures forall j :: 0 <= j < |ms| ==> IsMeasure(ms[j])
  {
    if n == 0 then [] else MeasuresUpTo(tokens, n - 1) + if IsMeasure(tokens[n - 1]) then [tokens[n - 1]] else []
  }

  lemma {:induction false} MeasuresArePositions(tokens: seq<Token>, n: nat)
    requires n <= |tokens|
    ensures |MeasuresUpTo(tokens, n)| == |PositionsUpTo(tokens, n)|
    ensures forall j :: 0 <= j < |MeasuresUpTo(tokens, n)| ==>
              MeasuresUpTo(tokens, n)[j] == tokens[PositionsUpTo(tokens, n)[j]]
  {
    if n != 0 {
      MeasuresArePositions(tokens, n - 1);
    }
  }

  lemma {:induction false} MeasuresConcat(a: seq<Token>, b: seq<Token>, n: nat)
    requires n <= |b|
    ensures MeasuresUpTo(a + b, |a| + n) == MeasuresUpTo(a, |a|) + MeasuresUpTo(b, n)
  {
    if n == 0 {
      MeasuresPrefix(a, b, |a|);
    } else {
      MeasuresConcat(a, b, n - 1);
    }
  }

  lemma {:induction false} MeasuresPrefix(a: seq<Token>, b: seq<Token>, n: nat)
    requires n <= |a|
    ensures MeasuresUpTo(a + b, n) == MeasuresUpTo(a, n)
  {
    if n != 0 {
      MeasuresPrefix(a, b, n - 1);
    }
  }

  predicate ProbesMatch(probes: seq<Probe>, measures: seq<Token>)
    requires forall j :: 0 <= j < |measures| ==> IsMeasure(measures[j])
  {
    |probes| == |measures| && forall j :: 0 <= j < |probes| ==> probes[j] == ProbeOf(measures[j])
  }

  lemma {:induction false} MatchConcat(probes: seq<Probe>, measures: seq<Token>, probes': seq<Probe>,
                                       measures': seq<Token>)
    requires forall j :: 0 <= j < |measures| ==> IsMeasure(measures[j])
    requires forall j :: 0 <= j < |measures'| ==> IsMeasure(measures'[j])
    requires ProbesMatch(probes, measures) && ProbesMatch(probes', measures')
    ensures forall j :: 0 <= j < |measures + measures'| ==> IsMeasure((measures + measures')[j])
    ensures ProbesMatch(probes + probes', measures + measures')
  {
  }

  lemma {:induction false} CleanSegment(tokens: seq<Token>)
    requires Clean(tokens)
    ensures ProbesMatch(ProbesOf(tokens), MeasuresUpTo(tokens, |tokens|))
  {
    CleanProbes(tokens, |tokens|);
    MeasuresArePositions(tokens, |tokens|);
  }

  /** When no number stands directly before parentheses in any segment, the probes of the segments are
      the measurements of the whole token stream, one by one. */
  lemma {:induction false} CleanSegments(segments: seq<seq<Token>>, n: nat)
    requires n <= |segments| && forall i :: 0 <= i < n ==> Clean(segments[i])
    ensures ProbesMatch(AllProbes(segments, n), MeasuresUpTo(AllTokens(segments, n), |AllTokens(segments, n)|))
  {
    if n != 0 {
      var before, last := AllTokens(segments, n - 1), segments[n - 1];
      CleanSegments(segments, n - 1);
      CleanSegment(last);
      assert AllTokens(segments, n) == before + last
          && AllProbes(segments, n) == AllProbes(segments, n - 1) + ProbesOf(last);
      MatchConcat(AllProbes(segments, n - 1), MeasuresUpTo(before, |before|), ProbesOf(last),
                  MeasuresUpTo(last, |last|));
      MeasuresConcat(before, last, |last|);
    }
  }

  /** The grouping walk stays aligned: in clean segments the j-th probe is the j-th measurement of the
      hop, and it is filed under the last bare address before it, or under the first address of the map
      when no bare address stands before it. */
  lemma {:induction false} ProbesAreAttributed(segments: seq<seq<Token>>, first: IpText, j: nat)
    requires forall i :: 0 <= i < |segments| ==> Clean(segments[i])
    requires j < |AllProbes(segments, |segments|)|
    ensures var tokens, probes := AllTokens(segments, |segments|), AllProbes(segments, |segments|);
            && |probes| == |Positions(tokens)|
            && probes[j] == ProbeOf(tokens[Positions(tokens)[j]])
            && var key, p := KeysFor(tokens, first, |probes|)[j], Positions(tokens)[j];
               if forall k :: 0 <= k < p ==> !tokens[k].Ip? then key == first else IsLastBefore(tokens, p, key)
  {
    var tokens := AllTokens(segments, |segments|);
    CleanSegments(segments, |segments|);
    MeasuresArePositions(tokens, |tokens|);
    OwnersMeaning(tokens, j);
  }

  // ----- addresses of paths

  predicate AllIn(m: seq<Entry>, other: seq<Entry>) {
    forall i :: 0 <= i < |m| ==> HasKey(other, m[i].ip)
  }

  lemma {:induction false} UpdatedKeys(m: seq<Entry>, other: seq<Entry>, n: nat)
    requires n <= |other|
    ensures AllIn(m, Updated(m, other, n))
    ensures forall i :: 0 <= i < n ==> HasKey(Updated(m, other, n), other[i].ip)
  {
    if n != 0 {
      UpdatedKeys(m, other, n - 1);
      var before := Updated(m, other, n - 1);
      PutEffect(before, other[n - 1]);
      KeysKept(before, Put(before, other[n - 1]));
    } else {
      assert forall i :: 0 <= i < |m| ==> HasKey(m, m[i].ip);
    }
  }

  lemma {:induction false} KeysKept(m: seq<Entry>, more: seq<Entry>)
    requires |m| <= |more| && forall i :: 0 <= i < |m| ==> more[i].ip == m[i].ip
    ensures forall ip :: HasKey(m, ip) ==> HasKey(more, ip)
  {
    forall ip | HasKey(m, ip)
      ensures HasKey(more, ip)
    {
      var i :| 0 <= i < |m| && m[i].ip == ip;
      assert more[i].ip == ip;
    }
  }

  lemma {:induction false} UpdatedIsUnique(m: seq<Entry>, other: seq<Entry>, n: nat)
    requires n <= |other| && UniqueEntries(m)
    ensures UniqueEntries(Updated(m, other, n))
  {
    if n != 0 {
      UpdatedIsUnique(m, other, n - 1);
    }
  }

  /** So "more than one entry" means more than one address. */
  lemma {:induction false} EntriesAreUnique(segments: seq<seq<Token>>, n: nat)
    requires n <= |segments|
    ensures UniqueEntries(AllEntries(segments, n))
  {
    if n != 0 {
      EntriesAreUnique(segments, n - 1);
      var own := MapOf(segments[n - 1]);
      UpdatedIsUnique(AllEntries(segments, n - 1), own, |own|);
    }
  }

  /** Every bare address of the hop has an entry. */
  lemma {:induction false} BareAddressesAreMapped(segments: seq<seq<Token>>, n: nat, k: nat)
    requires n <= |segments| && k < |AllTokens(segments, n)| && AllTokens(segments, n)[k].Ip?
    ensures HasKey(AllEntries(segments, n), AllTokens(segments, n)[k].ip)
  {
    var before, own := AllEntries(segments, n - 1), MapOf(segments[n - 1]);
    var offset := |AllTokens(segments, n - 1)|;
    UpdatedKeys(before, own, |own|);
    if k < offset {
      BareAddressesAreMapped(segments, n - 1, k);
      var i :| 0 <= i < |before| && before[i].ip == AllTokens(segments, n)[k].ip;
    } else {
      MapFromKeys(segments[n - 1], 0, []);
      assert segments[n - 1][k - offset] == AllTokens(segments, n)[k];
      var i :| 0 <= i < |own| && own[i].ip == AllTokens(segments, n)[k].ip;
    }
  }

  lemma {:induction false} NearestIsBare(tokens: seq<Token>, p: nat)
    requires p <= |tokens| && NearestIp(tokens, p).Some?
    ensures exists k :: 0 <= k < p && tokens[k] == Ip(NearestIp(tokens, p).value)
  {
    if !tokens[p - 1].Ip? {
      NearestIsBare(tokens, p - 1);
    } else {
      assert tokens[p - 1] == Ip(NearestIp(tokens, p).value);
    }
  }

  /** A hop with several paths: distinct addresses, each known to the map, each with its probes in
      order; this needs no condition on the lines. */
  lemma {:induction false} PathsArePartition(number: nat, segments: seq<seq<Token>>, i: nat)
    requires HopOf(number, segments).data.Multipath? && i < |HopOf(number, segments).data.paths|
    ensures var paths, m := HopOf(number, segments).data.paths, AllEntries(segments, |segments|);
            && DistinctKeys(paths)
            && HasKey(m, paths[i].key) && paths[i].tag == Lookup(m, paths[i].key)
            && var probes := AllProbes(segments, |segments|);
               var keys := KeysFor(AllTokens(segments, |segments|), m[0].ip, |probes|);
               paths[i].items == Select(keys, probes, paths[i].key, |probes|)
  {
    var n := |segments|;
    var tokens, probes, m := AllTokens(segments, n), AllProbes(segments, n), AllEntries(segments, n);
    var keys := KeysFor(tokens, m[0].ip, |probes|);
    var paths := Grouped(keys, Hostnames(keys, m), probes, |probes|);
    GroupedKeys(keys, Hostnames(keys, m), probes, |probes|);
    GroupedSelects(keys, Hostnames(keys, m), probes, |probes|, i);
    var j :| 0 <= j < |probes| && keys[j] == paths[i].key && Hostnames(keys, m)[j] == paths[i].tag;
    KeyIsMapped(segments, j);
  }

  lemma {:induction false} KeyIsMapped(segments: seq<seq<Token>>, j: nat)
    requires |AllEntries(segments, |segments|)| > 0
    ensures var m := AllEntries(segments, |segments|);
            HasKey(m, KeyFor(AllTokens(segments, |segments|), m[0].ip, j))
  {
    var n := |segments|;
    var tokens, m := AllTokens(segments, n), AllEntries(segments, n);
    var owners := OwnersUpTo(tokens, |tokens|);
    if j < |owners| && owners[j].Some? {
      OwnersAreNearest(tokens, |tokens|);
      var p := Positions(tokens)[j];
      NearestIsBare(tokens, p);
      var k :| 0 <= k < p && tokens[k] == Ip(NearestIp(tokens, p).value);
      BareAddressesAreMapped(segments, n, k);
    } else {
      assert m[0].ip == KeyFor(tokens, m[0].ip, j);
    }
  }

  // ----- masking

  const HIDDEN := IpText("[hidden]", None)

  function MaskedPath(path: Path): Path {
    if IsIpBlocked(path.key) then Group(HIDDEN, None, path.items) else path
  }

  function MaskedPaths(paths: seq<Path>): (masked: seq<Path>)
    ensures |masked| == |paths|
  {
    seq(|paths|, i requires 0 <= i < |paths| => MaskedPath(paths[i]))
  }

  predicate AllHidden(paths: seq<Path>) {
    forall i :: 0 <= i < |paths| ==> paths[i].key == HIDDEN
  }

  /** The hop as shown; a hop all of whose paths are hidden becomes a plain one. */
  function Masked(data: HopData, showPrivate: bool): HopData {
    if showPrivate then data
    else match data
      case Multipath(paths, reached) =>
        var masked := MaskedPaths(paths);
        if AllHidden(masked) then Plain(Some(HIDDEN), None, Joined(masked, |masked|), reached)
        else Multipath(masked, reached)
      case Plain(ip, hostname, probes, reached) =>
        if ip.Some? && IsIpBlocked(ip.value) then Plain(Some(HIDDEN), None, probes, reached) else data
  }

  // ----- the destination

  /** Whether the target is among the addresses that answered. */
  predicate Hits(data: HopData, target: IpText) {
    match data
    case Multipath(paths, _) => exists i :: 0 <= i < |paths| && paths[i].key == target
    case Plain(ip, _, _, _) => ip == Some(target)
  }

  /** The hop with its mark, when it contains the target. */
  function Marked(data: HopData, target: IpText): HopData {
    if Hits(data, target) then data.(reached := true) else data
  }

  /** The record of a hop, changed in place on its way out. */
  class HopRecord {
    var multipath: bool
    var ip: Option<IpText>
    var hostname: Option<string>
    var probes: seq<Probe>
    var paths: seq<Path>
    var reached: bool

    constructor (data: HopData)
      ensures Value() == data
    {
      multipath := data.Multipath?;
      ip := if data.Plain? then data.ip else None;
      hostname := if data.Plain? then data.hostname else None;
      probes := if data.Plain? then data.probes else [];
      paths := if data.Multipath? then data.paths else [];
      reached := data.reached;
    }

    function Value(): HopData
      reads this
    {
      if multipath then Multipath(paths, reached) else Plain(ip, hostname, probes, reached)
    }

    method MaskPrivateHops(showPrivate: bool)
      modifies this
      ensures Value() == Masked(old(Value()), showPrivate)
    {
      if showPrivate {
        return;
      }
      if multipath {
        var maskedPaths: seq<Path> := [];
        for i := 0 to |paths|
          invariant |maskedPaths| == i && unchanged(this)
          invariant forall j :: 0 <= j < i ==> maskedPaths[j] == MaskedPath(paths[j])
        {
          if IsIpBlocked(paths[i].key) {
            maskedPaths := maskedPaths + [Group(HIDDEN, None, paths[i].items)];
          } else {
            maskedPaths := maskedPaths + [paths[i]];
          }
        }
        assert maskedPaths == MaskedPaths(paths);
        paths := maskedPaths;
        if AllHidden(maskedPaths) {
          multipath := false;
          ip := Some(HIDDEN);
          hostname := None;
          probes := Joined(maskedPaths, |maskedPaths|);
          paths := [];
        }
        return;
      }
      if ip.Some? && IsIpBlocked(ip.value) {
        ip := Some(HIDDEN);
        hostname := None;
      }
    }

    /** Marks the hop when the target is one of its addresses. */
    method DetectDestination(target: IpText) returns (hit: bool)
      modifies this
      ensures hit <==> Hits(old(Value()), target)
      ensures Value() == Marked(old(Value()), target)
    {
      if !multipath {
        hit := ip == Some(target);
        reached := reached || hit;
        return;
      }
      for i := 0 to |paths|
        invariant unchanged(this)
        invariant forall j :: 0 <= j < i ==> paths[j].key != target
      {
        if paths[i].key == target {
          reached := true;
          return true;
        }
      }
      hit := false;
    }
  }

  /** An address that may be shown: the placeholder, or one that is not blocked. */
  predicate MayShow(ip: IpText) {
    ip == HIDDEN || !IsIpBlocked(ip)
  }

  lemma {:induction false} MaskedJoined(paths: seq<Path>, n: nat)
    requires n <= |paths|
    ensures Joined(MaskedPaths(paths), n) == Joined(paths, n)
  {
    if n != 0 {
      MaskedJoined(paths, n - 1);
    }
  }

  /** With private addresses off: a blocked address is replaced, together with its host name; everything else is
      shown as it is, unless all paths are hidden, which makes the hop a plain hidden one. */
  lemma {:induction false} MaskingMeaning(data: HopData)
    ensures Masked(data, true) == data
    ensures data.Plain? ==>
              Masked(data, false)
                == if data.ip.Some?
                    && IsIpBlocked(data.ip.value) then Plain(Some(HIDDEN), None, data.probes, data.reached)
                   else data
    ensures data.Multipath? && (forall i :: 0 <= i < |data.paths| ==> IsIpBlocked(data.paths[i].key)) ==>
              Masked(data, false) == Plain(Some(HIDDEN), None, HopProbes(data), data.reached)
    ensures data.Multipath? && !(forall i :: 0 <= i < |data.paths| ==> IsIpBlocked(data.paths[i].key)) ==>
              && Masked(data, false).Multipath? && Masked(data, false).reached == data.reached
              && |Masked(data, false).paths| == |data.paths|
              && forall i :: 0 <= i < |data.paths| ==>
                   Masked(data, false).paths[i] == if IsIpBlocked(data.paths[i].key)
                                                   then Group(HIDDEN, None, data.paths[i].items) else data.paths[i]
  {
    if data.Multipath? {
      var masked := MaskedPaths(data.paths);
      assert forall i :: 0 <= i < |masked| ==> (masked[i].key == HIDDEN <==> IsIpBlocked(data.paths[i].key));
      MaskedJoined(data.paths, |data.paths|);
    }
  }

  /** With private addresses off: no blocked address is shown, no probe changes or moves, and masking
      again changes nothing. */
  lemma {:induction false} MaskingIsSafe(data: HopData)
    ensures var shown := Masked(data, false);
            && (shown.Plain? && shown.ip.Some? ==> MayShow(shown.ip.value))
            && (shown.Multipath? ==> forall i :: 0 <= i < |shown.paths| ==> MayShow(shown.paths[i].key))
            && HopProbes(shown) == HopProbes(data)
            && Masked(shown, false) == shown
  {
    if data.Multipath? {
      MaskedJoined(data.paths, |data.paths|);
      var masked := MaskedPaths(data.paths);
      assert MaskedPaths(masked) == masked;
    }
  }

  /** Masking hides the destination exactly when it is hidden itself. */
  lemma {:induction false} MaskingKeepsDestination(data: HopData, target: IpText, showPrivate: bool)
    requires target.parsed.Some?
    ensures Hits(Masked(data, showPrivate), target) <==> Hits(data, target) && (showPrivate || !IsIpBlocked(target))
  {
    if data.Multipath? && !showPrivate {
      var paths, masked := data.paths, MaskedPaths(data.paths);
      if Hits(data, target) && !IsIpBlocked(target) {
        var i :| 0 <= i < |paths| && paths[i].key == target;
        assert masked[i].key == target;
      }
      if Hits(Masked(data, false), target) {
        var i :| 0 <= i < |masked| && masked[i].key == target;
        assert paths[i].key == target;
      }
    }
  }

  // ----- which of several addresses a hop shows

  /** The address to which the j-th probe of the hop goes. */
  function Answering(segments: seq<seq<Token>>, j: nat): IpText
    requires AllEntries(segments, |segments|) != []
  {
    KeyFor(AllTokens(segments, |segments|), AllEntries(segments, |segments|)[0].ip, j)
  }

  /** The paths of a hop are the addresses to which probes go, and no others of the map. */
  lemma {:induction false} PathsAreAnswering(number: nat, segments: seq<seq<Token>>, ip: IpText)
    requires |AllEntries(segments, |segments|)| > 1
    ensures Hits(HopOf(number, segments).data, ip)
       <==> exists j :: 0 <= j < |AllProbes(segments, |segments|)| && Answering(segments, j) == ip
  {
    var tokens, probes, m :=
        AllTokens(segments, |segments|), AllProbes(segments, |segments|), AllEntries(segments, |segments|);
    var keys := KeysFor(tokens, m[0].ip, |probes|);
    var paths := Grouped(keys, Hostnames(keys, m), probes, |probes|);
    GroupedKeys(keys, Hostnames(keys, m), probes, |probes|);
    if Hits(HopOf(number, segments).data, ip) {
      var i :| 0 <= i < |paths| && paths[i].key == ip;
      var j :| 0 <= j < |probes| && keys[j] == paths[i].key;
      assert Answering(segments, j) == ip;
    }
    if j :| 0 <= j < |probes| && Answering(segments, j) == ip {
      assert keys[j] == ip;
      GroupedCovers(keys, Hostnames(keys, m), probes, |probes|, j);
    }
  }

  /** The hop contains the target: it is its only address, or one of several to which probes go. */
  ghost predicate ContainsTarget(segments: seq<seq<Token>>, target: IpText) {
    if |AllEntries(segments, |segments|)| > 1
    then exists j :: 0 <= j < |AllProbes(segments, |segments|)| && Answering(segments, j) == target
    else HasKey(AllEntries(segments, |segments|), target)
  }

  /** The destination is found in a hop exactly when the hop contains it. */
  lemma {:induction false} HitsExactly(number: nat, segments: seq<seq<Token>>, target: IpText)
    ensures Hits(HopOf(number, segments).data, target) <==> ContainsTarget(segments, target)
  {
    if |AllEntries(segments, |segments|)| > 1 {
      PathsAreAnswering(number, segments, target);
    }
  }

  /** What a hop is made of: its number as read, no mark, and with at most one address that address, its name
      and all probes, or three timeouts when there is neither address nor probe. */
  lemma {:induction false} HopForm(number: nat, segments: seq<seq<Token>>)
    ensures var hop, n := HopOf(number, segments), |segments|;
            var probes, m := AllProbes(segments, n), AllEntries(segments, n);
            && hop.number == number && !hop.data.reached && (hop.data.Multipath? <==> |m| > 1)
            && (|m| == 1 ==>
                hop.data.ip == Some(m[0].ip) && hop.data.hostname == m[0].hostname && hop.data.probes == probes)
            && (|m| == 0 ==> hop.data.ip == None && hop.data.hostname == None
                             && hop.data.probes == if probes == [] then [Timeout, Timeout, Timeout] else probes)
  {
  }

  /** A hop with several addresses is shown as one hidden hop if and only if every probe goes to a blocked
      address: whether the other addresses of the map are blocked does not matter. */
  lemma {:induction false} HiddenExactlyWhenAllAnsweringBlocked(number: nat, segments: seq<seq<Token>>)
    requires |AllEntries(segments, |segments|)| > 1
    ensures Masked(HopOf(number, segments).data, false).Plain?
       <==> forall j {:trigger Answering(segments, j)} :: 0 <= j < |AllProbes(segments, |segments|)| ==>
              IsIpBlocked(Answering(segments, j))
  {
    var paths := HopOf(number, segments).data.paths;
    var masked := MaskedPaths(paths);
    assert forall i :: 0 <= i < |paths| ==> (masked[i].key == HIDDEN <==> IsIpBlocked(paths[i].key));
    if AllHidden(masked) {
      forall j | 0 <= j < |AllProbes(segments, |segments|)|
        ensures IsIpBlocked(Answering(segments, j))
      {
        PathsAreAnswering(number, segments, Answering(segments, j));
        var i :| 0 <= i < |paths| && paths[i].key == Answering(segments, j);
        assert masked[i].key == HIDDEN;
      }
    } else {
      var i :| 0 <= i < |paths| && masked[i].key != HIDDEN;
      PathsAreAnswering(number, segments, paths[i].key);
    }
  }

  /** Probes go to bare addresses or to the first address: an address in parentheses, as printed when
      names are resolved, is never a path unless it comes first. */
  lemma {:induction false} AnsweringIsBareOrFirst(segments: seq<seq<Token>>, j: nat)
    requires AllEntries(segments, |segments|) != []
    ensures Answering(segments, j) == AllEntries(segments, |segments|)[0].ip
            || Ip(Answering(segments, j)) in AllTokens(segments, |segments|)
  {
    var tokens := AllTokens(segments, |segments|);
    var owners := OwnersUpTo(tokens, |tokens|);
    OwnersAreNearest(tokens, |tokens|);
    if j < |owners| && owners[j].Some? {
      NearestIsBare(tokens, Positions(tokens)[j]);
    }
  }

  lemma {:induction false} GroupedUnderOne<K, V, T>(keys: seq<K>, tags: seq<V>, items: seq<T>, n: nat)
    requires |keys| == |tags| == |items| && 0 < n <= |keys| && forall j :: 0 <= j < n ==> keys[j] == keys[0]
    ensures Grouped(keys, tags, items, n) == [Group(keys[0], tags[0], items[..n])]
  {
    if n == 1 {
      assert Grouped(keys, tags, items, 0) == [];
      assert items[..1] == [items[0]];
    } else {
      GroupedUnderOne(keys, tags, items, n - 1);
      assert items[..n - 1] + [items[n - 1]] == items[..n];
    }
  }

  /** With names resolved, no address is bare: then however many routers answered, all probes are filed
      under the first, and the hop is hidden exactly when that one is blocked. */
  lemma {:induction false} NamedRoutersCollapse(number: nat, segments: seq<seq<Token>>)
    requires |AllEntries(segments, |segments|)| > 1 && AllProbes(segments, |segments|) != []
    requires forall t :: t in AllTokens(segments, |segments|) ==> !t.Ip?
    ensures var first, probes := AllEntries(segments, |segments|)[0], AllProbes(segments, |segments|);
            && HopOf(number, segments).data == Multipath([Group(first.ip, first.hostname, probes)], false)
            && (Masked(HopOf(number, segments).data, false).Plain? <==> IsIpBlocked(first.ip))
  {
    var tokens, probes, m :=
        AllTokens(segments, |segments|), AllProbes(segments, |segments|), AllEntries(segments, |segments|);
    var keys := KeysFor(tokens, m[0].ip, |probes|);
    forall j | 0 <= j < |probes|
      ensures Answering(segments, j) == m[0].ip
    {
      AnsweringIsBareOrFirst(segments, j);
    }
    assert forall j :: 0 <= j < |probes| ==> keys[j] == Answering(segments, j);
    GroupedUnderOne(keys, Hostnames(keys, m), probes, |probes|);
    assert probes[..|probes|] == probes;
    HiddenExactlyWhenAllAnsweringBlocked(number, segments);
    assert Answering(segments, 0) == m[0].ip;
  }

  /** `a 1 ms b`, with `a` blocked and `b` not: the hop has a probe and an address that may be shown, and
      is hidden all the same. */
  lemma {:induction false} BareAddressIsHidden(a: IpText, b: IpText, text: string, rtt: real, number: nat)
      returns (segments: seq<seq<Token>>)
    requires IsIpBlocked(a) && !IsIpBlocked(b)
    ensures segments == [[Ip(a), Num(text, rtt), Ms, Ip(b)]]
    ensures HasKey(AllEntries(segments, 1), b) && !Hits(HopOf(number, segments).data, b)
    ensures Masked(HopOf(number, segments).data, false) == Plain(Some(HIDDEN), None, [Reply(rtt)], false)
  {
    var tokens := [Ip(a), Num(text, rtt), Ms, Ip(b)];
    segments := [tokens];
    var ea, eb := Entry(a, None), Entry(b, None);
    MapOfBare(a, b, text, rtt);
    OneSegment(tokens, ea, eb);
    ProbesOfBare(a, b, text, rtt);
    OneProbeMasked(number, segments, Reply(rtt));
    OneProbeMisses(number, segments, b);
  }

  lemma {:induction false} OneProbeMisses(number: nat, segments: seq<seq<Token>>, other: IpText)
    requires |AllEntries(segments, |segments|)| > 1 && |AllProbes(segments, |segments|)| == 1
    requires other != Answering(segments, 0)
    ensures !Hits(HopOf(number, segments).data, other)
  {
    PathsAreAnswering(number, segments, other);
    assert forall j :: 0 <= j < 1 ==> Answering(segments, j) != other;
  }

  lemma {:induction false} OneProbeMasked(number: nat, segments: seq<seq<Token>>, probe: Probe)
    requires |AllEntries(segments, |segments|)| > 1 && AllProbes(segments, |segments|) == [probe]
    requires IsIpBlocked(Answering(segments, 0))
    ensures Masked(HopOf(number, segments).data, false) == Plain(Some(HIDDEN), None, [probe], false)
  {
    OneProbeCollapses(number, segments);
    OneProbeKept(number, segments, probe);
    HiddenForm(HopOf(number, segments).data);
  }

  lemma {:induction false} OneProbeCollapses(number: nat, segments: seq<seq<Token>>)
    requires |AllEntries(segments, |segments|)| > 1 && |AllProbes(segments, |segments|)| == 1
    requires IsIpBlocked(Answering(segments, 0))
    ensures HopOf(number, segments).data.Multipath? && !HopOf(number, segments).data.reached
    ensures Masked(HopOf(number, segments).data, false).Plain?
  {
    HiddenExactlyWhenAllAnsweringBlocked(number, segments);
  }

  lemma {:induction false} OneProbeKept(number: nat, segments: seq<seq<Token>>, probe: Probe)
    requires AllProbes(segments, |segments|) == [probe]
    ensures HopProbes(HopOf(number, segments).data) == [probe]
  {
    HopKeepsProbes(number, segments);
    OneElement(HopProbes(HopOf(number, segments).data), probe);
  }

  lemma {:induction false} HiddenForm(data: HopData)
    requires data.Multipath? && Masked(data, false).Plain?
    ensures Masked(data, false) == Plain(Some(HIDDEN), None, HopProbes(data), data.reached)
  {
    MaskedJoined(data.paths, |data.paths|);
  }

  lemma {:induction false} OneElement<T>(s: seq<T>, t: T)
    requires multiset(s) == multiset{t}
    ensures s == [t]
  {
    assert |s| == |multiset(s)| == 1;
    assert s[0] in multiset(s);
  }

  lemma {:induction false} MapOfBare(a: IpText, b: IpText, text: string, rtt: real)
    requires a != b
    ensures MapOf([Ip(a), Num(text, rtt), Ms, Ip(b)]) == [Entry(a, None), Entry(b, None)]
  {
    var tokens := [Ip(a), Num(text, rtt), Ms, Ip(b)];
    var ea, eb := Entry(a, None), Entry(b, None);
    assert AddNew([], a, None) == [ea] && AddNew([ea], b, None) == [ea, eb];
    assert MapFrom(tokens, 4, [ea, eb]) == [ea, eb];
    assert MapFrom(tokens, 3, [ea]) == MapFrom(tokens, 4, [ea, eb]);
    assert MapFrom(tokens, 1, [ea]) == MapFrom(tokens, 3, [ea]);
  }

  lemma {:induction false} ProbesOfBare(a: IpText, b: IpText, text: string, rtt: real)
    ensures var tokens := [Ip(a), Num(text, rtt), Ms, Ip(b)];
            ProbesOf(tokens) == [Reply(rtt)] && OwnersUpTo(tokens, |tokens|) == [Some(a)]
  {
    var tokens := [Ip(a), Num(text, rtt), Ms, Ip(b)];
    assert ProbesUpTo(tokens, 1) == [] && ProbesUpTo(tokens, 2) == [Reply(rtt)] == ProbesUpTo(tokens, 3);
    assert OwnersUpTo(tokens, 1) == [] && NearestIp(tokens, 1) == Some(a);
    assert OwnersUpTo(tokens, 2) == [Some(a)] == OwnersUpTo(tokens, 3);
  }

  lemma {:induction false} OneSegment(tokens: seq<Token>, ea: Entry, eb: Entry)
    requires MapOf(tokens) == [ea, eb] && ea.ip != eb.ip
    ensures AllTokens([tokens], 1) == tokens && AllProbes([tokens], 1) == ProbesOf(tokens)
    ensures AllEntries([tokens], 1) == [ea, eb] && HasKey([ea, eb], eb.ip)
  {
    assert AllTokens([tokens], 0) == [] && AllProbes([tokens], 0) == [];
    assert [] + tokens == tokens && [] + ProbesOf(tokens) == ProbesOf(tokens);
    assert Updated([], [ea, eb], 1) == [ea];
    assert Updated([], [ea, eb], 2) == [ea, eb];
    assert [ea, eb][1].ip == eb.ip;
  }

  /** `gw (a) 1 ms isp (b) 2 ms`, the form printed with names: both answered, only `a` is a path. */
  lemma {:induction false} NamedAddressIsHidden(a: IpText, b: IpText, gw: string, isp: string, t1: string, r1: real,
                                                t2: string, r2: real, number: nat) returns (segments: seq<seq<Token>>)
    requires IsIpBlocked(a) && a.parsed.Some? && !IsIpBlocked(b)
    ensures segments == [[Word(gw), Paren(a), Num(t1, r1), Ms, Word(isp), Paren(b), Num(t2, r2), Ms]]
    ensures Clean(segments[0]) && HasKey(AllEntries(segments, 1), b) && !Hits(HopOf(number, segments).data, b)
    ensures Masked(HopOf(number, segments).data, false).Plain?
    ensures HopProbes(HopOf(number, segments).data) == [Reply(r1), Reply(r2)]
  {
    var tokens := [Word(gw), Paren(a), Num(t1, r1), Ms, Word(isp), Paren(b), Num(t2, r2), Ms];
    segments := [tokens];
    MapOfNamed(a, b, gw, isp, t1, r1, t2, r2);
    ProbesOfNamed(a, b, gw, isp, t1, r1, t2, r2);
    OnlyFirstOfLine(number, tokens, Entry(a, Some(gw)), Entry(b, Some(isp)));
  }

  lemma {:induction false} OnlyFirstOfLine(number: nat, tokens: seq<Token>, first: Entry, second: Entry)
    requires MapOf(tokens) == [first, second] && ProbesOf(tokens) != [] && forall t :: t in tokens ==> !t.Ip?
    requires IsIpBlocked(first.ip) && second.ip != first.ip
    ensures HasKey(AllEntries([tokens], 1), second.ip) && !Hits(HopOf(number, [tokens]).data, second.ip)
    ensures Masked(HopOf(number, [tokens]).data, false).Plain?
    ensures HopProbes(HopOf(number, [tokens]).data) == ProbesOf(tokens)
  {
    OneSegment(tokens, first, second);
    OnlyFirstIsPath(number, [tokens], first, second);
  }

  lemma {:induction false} OnlyFirstIsPath(number: nat, segments: seq<seq<Token>>, first: Entry, second: Entry)
    requires AllEntries(segments, |segments|) == [first, second] && AllProbes(segments, |segments|) != []
    requires forall t :: t in AllTokens(segments, |segments|) ==> !t.Ip?
    requires IsIpBlocked(first.ip) && second.ip != first.ip
    ensures Masked(HopOf(number, segments).data, false).Plain? && !Hits(HopOf(number, segments).data, second.ip)
    ensures HopProbes(HopOf(number, segments).data) == AllProbes(segments, |segments|)
  {
    NamedRoutersCollapse(number, segments);
    var path: Path := Group(first.ip, first.hostname, AllProbes(segments, |segments|));
    assert Joined([path], 0) == [] && Joined([path], 1) == [] + path.items == path.items;
  }

  lemma {:induction false} MapOfNamed(a: IpText, b: IpText, gw: string, isp: string, t1: string, r1: real, t2: string,
                                      r2: real)
    requires a != b && a.parsed.Some? && b.parsed.Some?
    ensures MapOf([Word(gw), Paren(a), Num(t1, r1), Ms, Word(isp), Paren(b), Num(t2, r2), Ms])
            == [Entry(a, Some(gw)), Entry(b, Some(isp))]
  {
    var tokens := [Word(gw), Paren(a), Num(t1, r1), Ms, Word(isp), Paren(b), Num(t2, r2), Ms];
    var ea, eb := Entry(a, Some(gw)), Entry(b, Some(isp));
    assert AddNew([], a, Some(gw)) == [ea] && AddNew([ea], b, Some(isp)) == [ea, eb];
    assert MapFrom(tokens, 6, [ea, eb]) == MapFrom(tokens, 8, [ea, eb]);
    assert ParenAt(tokens, 5) && Spelling(tokens[4]) == isp;
    assert MapFrom(tokens, 4, [ea]) == MapFrom(tokens, 6, [ea, eb]);
    assert MapFrom(tokens, 2, [ea]) == MapFrom(tokens, 4, [ea]);
    assert ParenAt(tokens, 1) && Spelling(tokens[0]) == gw;
  }

  lemma {:induction false} ProbesOfNamed(a: IpText, b: IpText, gw: string, isp: string, t1: string, r1: real,
                                         t2: string, r2: real)
    ensures ProbesOf([Word(gw), Paren(a), Num(t1, r1), Ms, Word(isp), Paren(b), Num(t2, r2), Ms])
              == [Reply(r1), Reply(r2)]
  {
    var tokens := [Word(gw), Paren(a), Num(t1, r1), Ms, Word(isp), Paren(b), Num(t2, r2), Ms];
    assert ProbesUpTo(tokens, 1) == [] == ProbesUpTo(tokens, 2);
    assert ProbesUpTo(tokens, 3) == [Reply(r1)] == ProbesUpTo(tokens, 4);
    assert ProbesUpTo(tokens, 5) == [Reply(r1)] == ProbesUpTo(tokens, 6);
    assert ProbesUpTo(tokens, 7) == [Reply(r1), Reply(r2)];
  }

  /** `b (inner) 1 ms`: the text in parentheses is shown as the host name of `b`, although it may be a
      blocked address. */
  lemma {:induction false} HostNameIsNotMasked(b: IpText, inner: IpText, text: string, rtt: real, number: nat)
    requires !IsIpBlocked(b) && IsIpBlocked(inner)
    ensures Masked(HopOf(number, [[Ip(b), Paren(inner), Num(text, rtt), Ms]]).data, false)
              == Plain(Some(b), Some(inner.spelling), [Reply(rtt)], false)
  {
    var tokens := [Ip(b), Paren(inner), Num(text, rtt), Ms];
    var e := Entry(b, Some(inner.spelling));
    assert AddNew([], b, Some(inner.spelling)) == [e];
    assert ParenAt(tokens, 1) && MapFrom(tokens, 2, [e]) == MapFrom(tokens, 4, [e]) == [e];
    assert ProbesUpTo(tokens, 1) == [] == ProbesUpTo(tokens, 2);
    assert ProbesUpTo(tokens, 3) == [Reply(rtt)] == ProbesOf(tokens);
    SingleEntry(number, tokens, e);
  }

  lemma {:induction false} SingleEntry(number: nat, tokens: seq<Token>, e: Entry)
    requires MapOf(tokens) == [e]
    ensures HopOf(number, [tokens]).data == Plain(Some(e.ip), e.hostname, ProbesOf(tokens), false)
  {
    assert AllEntries([tokens], 0) == [] && AllProbes([tokens], 0) == [];
    assert Updated([], [e], 0) == [] && Updated([], [e], 1) == [e];
    assert [] + ProbesOf(tokens) == ProbesOf(tokens);
  }
}
