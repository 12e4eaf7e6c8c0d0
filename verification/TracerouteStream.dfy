/** Reading traceroute output: the batch parser over all lines, and the streaming one that reports a
    hop as soon as it has all its probes. */
module TracerouteStream {
  import opened Common
  import opened AddressFilter
  import opened TracerouteTokens
  import opened TracerouteHops

  /** A stripped line of output, as the two parsers classify it. */
  datatype Line = Blank | Header | HopLine(number: nat, tokens: seq<Token>) | Continuation(tokens: seq<Token>)

  /** The lines collected for one hop. */
  datatype RawHop = RawHop(number: nat, segments: seq<seq<Token>>)

  /** Hops already given out, and the one being collected. */
  datatype Progress = Progress(done: seq<RawHop>, current: Option<RawHop>)

  function Flushed(p: Progress): Progress {
    if p.current.Some? then Progress(p.done + [p.current.value], None) else p
  }

  function Parsed(raws: seq<RawHop>): (hops: seq<Hop>)
    ensures |hops| == |raws|
  {
    seq(|raws|, i requires 0 <= i < |raws| => HopOf(raws[i].number, raws[i].segments))
  }

  // ----- batch

  function BatchStep(p: Progress, line: Line): Progress {
    match line
    case Blank => p
    case Header => p
    case HopLine(number, tokens) => Progress(Flushed(p).done, Some(RawHop(number, [tokens])))
    case Continuation(tokens) =>
      if p.current.Some? then p.(current := Some(RawHop(p.current.value.number, p.current.value.segments + [tokens])))
      else p
  }

  function Batch(lines: seq<Line>): Progress {
    if lines == [] then Progress([], None) else BatchStep(Batch(lines[..|lines| - 1]), lines[|lines| - 1])
  }

  lemma {:induction false} BatchSnoc(lines: seq<Line>, line: Line)
    ensures Batch(lines + [line]) == BatchStep(Batch(lines), line)
  {
    assert (lines + [line])[..|lines|] == lines;
  }

  /** The numbers of the hop lines, in order. */
  function HopNumbers(lines: seq<Line>): seq<nat> {
    if lines == [] then []
    else
      var line := lines[|lines| - 1];
      HopNumbers(lines[..|lines| - 1]) + if line.HopLine? then [line.number] else []
  }

  /** The tokens of the hop lines and of the continuation lines after the first of them, in order. */
  function LineTokens(lines: seq<Line>): seq<seq<Token>> {
    if lines == [] then []
    else
      var init, line := lines[..|lines| - 1], lines[|lines| - 1];
      LineTokens(init) + if line.HopLine? || (line.Continuation? && HopNumbers(init) != []) then [line.tokens] else []
  }

  function Numbers(raws: seq<RawHop>): (r: seq<nat>)
    ensures |r| == |raws|
  {
    seq(|raws|, i requires 0 <= i < |raws| => raws[i].number)
  }

  function Segments(raws: seq<RawHop>): seq<seq<Token>> {
    if raws == [] then [] else Segments(raws[..|raws| - 1]) + raws[|raws| - 1].segments
  }

  lemma {:induction false} SegmentsSnoc(raws: seq<RawHop>, raw: RawHop)
    ensures Segments(raws + [raw]) == Segments(raws) + raw.segments
    ensures Numbers(raws + [raw]) == Numbers(raws) + [raw.number]
  {
    assert (raws + [raw])[..|raws|] == raws;
  }

  /** Every hop line gives one hop, in order, and no line is lost, doubled or moved. */
  lemma {:induction false} BatchKeepsLines(lines: seq<Line>)
    ensures Numbers(Flushed(Batch(lines)).done) == HopNumbers(lines)
    ensures Segments(Flushed(Batch(lines)).done) == LineTokens(lines)
    ensures Batch(lines).current.Some? <==> HopNumbers(lines) != []
  {
    if lines != [] {
      var init, line := lines[..|lines| - 1], lines[|lines| - 1];
      BatchKeepsLines(init);
      var before := Batch(init);
      if line.HopLine? {
        SegmentsSnoc(Flushed(before).done, RawHop(line.number, [line.tokens]));
      } else if line.Continuation? && before.current.Some? {
        var open := before.current.value;
        SegmentsSnoc(before.done, open);
        SegmentsSnoc(before.done, RawHop(open.number, open.segments + [line.tokens]));
      }
    }
  }

  /** The batch parser: a hop line closes the hop before it, other lines belong to the hop that is open. */
  method ParseOutput(lines: seq<Line>) returns (hops: seq<Hop>)
    ensures hops == Parsed(Flushed(Batch(lines)).done)
    ensures |hops| == |HopNumbers(lines)| && forall i :: 0 <= i < |hops| ==> hops[i].number == HopNumbers(lines)[i]
  {
    hops := [];
    var number: Option<nat> := None;
    var segments: seq<seq<Token>> := [];
    for i := 0 to |lines|
      invariant hops == Parsed(Batch(lines[..i]).done)
      invariant number.Some? <==> Batch(lines[..i]).current.Some?
      invariant number.Some? ==> segments != [] && Batch(lines[..i]).current.value == RawHop(number.value, segments)
    {
      BatchSnoc(lines[..i], lines[i]);
      assert lines[..i + 1] == lines[..i] + [lines[i]];
      match lines[i]
      case Blank =>
      case Header =>
      case HopLine(n, tokens) =>
        if number.Some? && segments != [] {
          var hop := ParseHopGroup(number.value, segments);
          hops := hops + [hop];
        }
        number := Some(n);
        segments := [tokens];
      case Continuation(tokens) =>
        if number.Some? {
          segments := segments + [tokens];
        }
    }
    assert lines[..|lines|] == lines;
    if number.Some? && segments != [] {
      var hop := ParseHopGroup(number.value, segments);
      hops := hops + [hop];
    }
    BatchKeepsLines(lines);
    assert Numbers(Flushed(Batch(lines)).done) == HopNumbers(lines);
  }

  // ----- streaming

  function ProbeCount(raw: RawHop): nat {
    |AllProbes(raw.segments, |raw.segments|)|
  }

  predicate Saturated(current: Option<RawHop>, perHop: int) {
    current.Some? && ProbeCount(current.value) >= perHop
  }

  function StreamStep(p: Progress, line: Line, perHop: int): Progress {
    if line.Blank? || line.Header? then p
    else
      var next := BatchStep(p, line);
      if Saturated(next.current, perHop) then Flushed(next) else next
  }

  function Stream(lines: seq<Line>, perHop: int): Progress {
    if lines == [] then Progress([], None)
    else StreamStep(Stream(lines[..|lines| - 1], perHop), lines[|lines| - 1], perHop)
  }

  /** The lines without the continuation lines of hops that already have all their probes. */
  function Trim(lines: seq<Line>, perHop: int): seq<Line> {
    if lines == [] then []
    else
      var kept := Trim(lines[..|lines| - 1], perHop);
      var line := lines[|lines| - 1];
      if line.Continuation? && Saturated(Batch(kept).current, perHop) then kept else kept + [line]
  }

  /** What streaming has given out and still holds, against the batch parser on the trimmed lines: the
      same hops in the same order, except that a saturated hop has already been given out. */
  lemma {:induction false} StreamFollowsBatch(lines: seq<Line>, perHop: int)
    ensures var batch, stream := Batch(Trim(lines, perHop)), Stream(lines, perHop);
            stream == if batch.current.Some?
                         && |AllProbes(batch.current.value.segments, |batch.current.value.segments|)| >= perHop
                      then Flushed(batch) else batch
  {
    if lines != [] {
      var init, line := lines[..|lines| - 1], lines[|lines| - 1];
      StreamFollowsBatch(init, perHop);
      BatchSnoc(Trim(init, perHop), line);
    }
  }

  /** Streaming refines the batch parser: after the final flush both have the same hops. */
  lemma {:induction false} StreamingRefinesBatch(lines: seq<Line>, perHop: int)
    ensures Flushed(Stream(lines, perHop)).done == Flushed(Batch(Trim(lines, perHop))).done
    ensures var held := Stream(lines, perHop).current;
            held.Some? ==> |AllProbes(held.value.segments, |held.value.segments|)| < perHop
  {
    StreamFollowsBatch(lines, perHop);
  }

  /** A line is dropped if and only if it continues a hop that already has its probes. */
  lemma {:induction false} TrimMeaning(lines: seq<Line>, line: Line, perHop: int)
    ensures var kept := Trim(lines, perHop);
            var held := Batch(kept).current;
            var full := held.Some? && |AllProbes(held.value.segments, |held.value.segments|)| >= perHop;
            Trim(lines + [line], perHop) == if line.Continuation? && full then kept else kept + [line]
  {
    assert (lines + [line])[..|lines|] == lines;
  }

  /** The tokens of continuation lines. */
  function Continued(lines: seq<Line>): seq<seq<Token>> {
    if lines == [] then []
    else
      var line := lines[|lines| - 1];
      Continued(lines[..|lines| - 1]) + if line.Continuation? then [line.tokens] else []
  }

  /** A hop is made of its own line and of the continuation lines up to the next hop line; the hops before it
      are those of the lines before it. */
  lemma {:induction false} HopOwnsItsLines(before: seq<Line>, number: nat, tokens: seq<Token>, after: seq<Line>)
    requires forall i :: 0 <= i < |after| ==> !after[i].HopLine?
    ensures Batch(before + [HopLine(number, tokens)] + after)
              == Progress(Flushed(Batch(before)).done, Some(RawHop(number, [tokens] + Continued(after))))
  {
    var head := before + [HopLine(number, tokens)];
    BatchSnoc(before, HopLine(number, tokens));
    if after == [] {
      assert head + [] == head && [tokens] + [] == [tokens];
    } else {
      var init, line := after[..|after| - 1], after[|after| - 1];
      HopOwnsItsLines(before, number, tokens, init);
      assert head + after == (head + init) + [line];
      BatchSnoc(head + init, line);
      if line.Continuation? {
        assert [tokens] + Continued(after) == ([tokens] + Continued(init)) + [line.tokens];
      } else {
        assert Continued(after) == Continued(init);
      }
    }
  }

  /** Only continuation lines after saturation are dropped: without any, trimming changes nothing. */
  lemma {:induction false} NothingToTrim(lines: seq<Line>, perHop: int, n: nat)
    requires n <= |lines|
    requires forall i {:trigger lines[i]} :: 0 <= i < |lines| && lines[i].Continuation? ==>
               !Saturated(Batch(lines[..i]).current, perHop)
    ensures Trim(lines[..n], perHop) == lines[..n]
  {
    if n != 0 {
      NothingToTrim(lines, perHop, n - 1);
      assert lines[..n][..n - 1] == lines[..n - 1] && lines[..n][n - 1] == lines[n - 1];
      assert lines[..n] == lines[..n - 1] + [lines[n - 1]];
    }
  }

  /** Trimming drops no hop: streaming gives out one hop for every hop line, in order. */
  lemma {:induction false} TrimKeepsHops(lines: seq<Line>, perHop: int)
    ensures HopNumbers(Trim(lines, perHop)) == HopNumbers(lines)
  {
    if lines != [] {
      var n := |lines| - 1;
      TrimKeepsHops(lines[..n], perHop);
      var kept := Trim(lines[..n], perHop);
      assert (kept + [lines[n]])[..|kept|] == kept;
    }
  }

  // ----- what is sent

  /** Whether one of the first `n` hops, as shown, contains the target. */
  predicate ReachedBefore(raws: seq<RawHop>, n: nat, target: IpText, showPrivate: bool)
    requires n <= |raws|
  {
    exists i :: 0 <= i < n && Hits(Shown(raws[i], showPrivate), target)
  }

  function Shown(raw: RawHop, showPrivate: bool): HopData {
    Masked(HopOf(raw.number, raw.segments).data, showPrivate)
  }

  /** The data of the i-th message: masked, and marked when it is the first to contain the target. */
  function Announced(raws: seq<RawHop>, i: nat, target: IpText, showPrivate: bool): HopData
    requires i < |raws|
  {
    var shown := Shown(raws[i], showPrivate);
    if ReachedBefore(raws, i, target, showPrivate) then shown else Marked(shown, target)
  }

  /** What has been sent and noted for the hops given out so far. */
  ghost predicate SentFor(raws: seq<RawHop>, sent: seq<Hop>, reached: bool, hopsSent: nat, target: IpText,
                          showPrivate: bool) {
    && |sent| == |raws|
    && (forall i :: 0 <= i < |sent| ==> sent[i] == Hop(raws[i].number, Announced(raws, i, target, showPrivate)))
    && (reached <==> ReachedBefore(raws, |raws|, target, showPrivate))
    && hopsSent == if raws == [] then 0 else raws[|raws| - 1].number
  }

  class TracerouteStreamer {
    const perHop: int
    const target: IpText
    const showPrivate: bool
    var hopNumber: Option<nat>
    var hopLines: seq<seq<Token>>
    var probeCount: nat
    var hopsSent: nat
    var destinationReached: bool
    var sent: seq<Hop>
    ghost var raws: seq<RawHop>

    function Current(): Option<RawHop>
      reads this
    {
      if hopNumber.Some? then Some(RawHop(hopNumber.value, hopLines)) else None
    }

    ghost function State(): Progress
      reads this
    {
      Progress(raws, Current())
    }

    ghost predicate Valid()
      reads this
    {
      && (hopNumber.Some? ==> hopLines != [] && probeCount == ProbeCount(Current().value))
      && SentFor(raws, sent, destinationReached, hopsSent, target, showPrivate)
    }

    constructor (perHop: int, target: IpText, showPrivate: bool)
      ensures Valid() && State() == Progress([], None)
      ensures this.perHop == perHop && this.target == target && this.showPrivate == showPrivate
    {
      this.perHop, this.target, this.showPrivate := perHop, target, showPrivate;
      hopNumber, hopLines, probeCount := None, [], 0;
      hopsSent, destinationReached, sent, raws := 0, false, [], [];
    }

    method FlushCurrentHop()
      requires Valid()
      modifies this
      ensures Valid() && State() == Flushed(old(State())) && hopNumber.None?
      ensures old(sent) <= sent
    {
      if hopNumber.Some? && hopLines != [] {
        var hop := ParseHopGroup(hopNumber.value, hopLines);
        var record := new HopRecord(hop.data);
        record.MaskPrivateHops(showPrivate);
        ghost var raw, reachedBefore := Current().value, destinationReached;
        assert record.Value() == Shown(raw, showPrivate);
        if !destinationReached {
          destinationReached := record.DetectDestination(target);
        }
        SentSnoc(raws, sent, reachedBefore, hopsSent, target, showPrivate, raw);
        raws := raws + [raw];
        sent := sent + [Hop(hopNumber.value, record.Value())];
        hopsSent := hopNumber.value;
      }
      hopNumber, hopLines, probeCount := None, [], 0;
    }

    method BeginHop(number: nat, tokens: seq<Token>)
      requires Valid() && hopNumber.None?
      modifies this
      ensures Valid() && State() == Progress(old(raws), Some(RawHop(number, [tokens])))
      ensures sent == old(sent)
    {
      hopNumber := Some(number);
      hopLines := [tokens];
      var probes := ParseProbes(tokens);
      probeCount := |probes|;
      assert AllProbes([tokens], 1) == AllProbes([tokens], 0) + probes;
    }

    method ContinueHop(tokens: seq<Token>)
      requires Valid() && hopNumber.Some?
      modifies this
      ensures Valid() && State() == Progress(old(raws), Some(RawHop(old(hopNumber.value), old(hopLines) + [tokens])))
      ensures sent == old(sent)
    {
      var probes := ParseProbes(tokens);
      ProbesSnoc(hopLines, tokens);
      hopLines := hopLines + [tokens];
      probeCount := probeCount + |probes|;
    }

    method ReadLine(line: Line)
      requires Valid()
      modifies this
      ensures Valid() && State() == StreamStep(old(State()), line, perHop)
      ensures old(sent) <= sent
    {
      match line {
        case Blank => return;
        case Header => return;
        case HopLine(number, tokens) =>
          FlushCurrentHop();
          BeginHop(number, tokens);
        case Continuation(tokens) =>
          if hopNumber.Some? {
            ContinueHop(tokens);
          }
      }
      assert State() == BatchStep(old(State()), line);
      if hopNumber.Some? && probeCount >= perHop {
        FlushCurrentHop();
      }
    }

    /** The whole stream, to the final flush. */
    method Run(lines: seq<Line>)
      requires Valid() && State() == Progress([], None)
      modifies this
      ensures Valid() && hopNumber.None?
      ensures raws == Flushed(Batch(Trim(lines, perHop))).done
      ensures Numbers(raws) == HopNumbers(lines)
      ensures SentNumbers(sent) == HopNumbers(lines)
      ensures hopsSent == if HopNumbers(lines) == [] then 0 else HopNumbers(lines)[|HopNumbers(lines)| - 1]
    {
      for i := 0 to |lines|
        invariant Valid() && State() == Stream(lines[..i], perHop)
      {
        assert lines[..i + 1][..i] == lines[..i];
        ReadLine(lines[i]);
      }
      assert lines[..|lines|] == lines;
      StreamingRefinesBatch(lines, perHop);
      TrimKeepsHops(lines, perHop);
      BatchKeepsLines(Trim(lines, perHop));
      FlushCurrentHop();
      NumbersAreSent(raws, sent, destinationReached, hopsSent, target, showPrivate);
    }
  }

  function SentNumbers(sent: seq<Hop>): (r: seq<nat>)
    ensures |r| == |sent| && forall i :: 0 <= i < |sent| ==> r[i] == sent[i].number
  {
    seq(|sent|, i requires 0 <= i < |sent| => sent[i].number)
  }

  lemma {:induction false} NumbersAreSent(raws: seq<RawHop>, sent: seq<Hop>, reached: bool, hopsSent: nat,
                                          target: IpText, showPrivate: bool)
    requires SentFor(raws, sent, reached, hopsSent, target, showPrivate)
    ensures SentNumbers(sent) == Numbers(raws)
    ensures hopsSent == if raws == [] then 0 else Numbers(raws)[|raws| - 1]
  {
  }

  lemma {:induction false} ProbesSnoc(segments: seq<seq<Token>>, last: seq<Token>)
    ensures AllProbes(segments + [last], |segments| + 1) == AllProbes(segments, |segments|) + ProbesOf(last)
  {
    ProbesPrefix(segments, last, |segments|);
  }

  lemma {:induction false} ProbesPrefix(segments: seq<seq<Token>>, last: seq<Token>, n: nat)
    requires n <= |segments|
    ensures AllProbes(segments + [last], n) == AllProbes(segments, n)
  {
    if n != 0 {
      ProbesPrefix(segments, last, n - 1);
    }
  }

  /** Earlier messages do not depend on later hops. */
  lemma {:induction false} ReachedPrefix(raws: seq<RawHop>, raw: RawHop, n: nat, target: IpText, showPrivate: bool)
    requires n <= |raws|
    ensures ReachedBefore(raws + [raw], n, target, showPrivate) <==> ReachedBefore(raws, n, target, showPrivate)
  {
    var more := raws + [raw];
    assert forall i :: 0 <= i < |raws| ==> more[i] == raws[i];
    if ReachedBefore(raws, n, target, showPrivate) {
      var i :| 0 <= i < n && Hits(Shown(raws[i], showPrivate), target);
      assert Hits(Shown(more[i], showPrivate), target);
    }
  }

  lemma {:induction false} ReachedSnoc(raws: seq<RawHop>, raw: RawHop, target: IpText, showPrivate: bool)
    ensures ReachedBefore(raws + [raw], |raws| + 1, target, showPrivate)
       <==> ReachedBefore(raws, |raws|, target, showPrivate) || Hits(Shown(raw, showPrivate), target)
  {
    var more := raws + [raw];
    ReachedPrefix(raws, raw, |raws|, target, showPrivate);
    assert more[|raws|] == raw;
    if ReachedBefore(more, |raws|, target, showPrivate) {
      var i :| 0 <= i < |raws| && Hits(Shown(more[i], showPrivate), target);
    }
  }

  /** The message of one more hop. */
  lemma {:induction false} SentSnoc(raws: seq<RawHop>, sent: seq<Hop>, reached: bool, hopsSent: nat, target: IpText,
                                    showPrivate: bool, raw: RawHop)
    requires SentFor(raws, sent, reached, hopsSent, target, showPrivate)
    ensures var shown := Shown(raw, showPrivate);
            SentFor(raws + [raw], sent + [Hop(raw.number, if reached then shown else Marked(shown, target))],
                    reached || Hits(shown, target), raw.number, target, showPrivate)
  {
    var more := raws + [raw];
    ReachedSnoc(raws, raw, target, showPrivate);
    assert more[|raws|] == raw;
    forall i | 0 <= i <= |raws|
      ensures ReachedBefore(more, i, target, showPrivate) <==> ReachedBefore(raws, i, target, showPrivate)
    {
      ReachedPrefix(raws, raw, i, target, showPrivate);
    }
    forall i | 0 <= i < |raws|
      ensures Announced(more, i, target, showPrivate) == Announced(raws, i, target, showPrivate)
    {
      assert more[i] == raws[i];
    }
  }

  // ----- the destination over a whole stream

  lemma {:induction false} ParsedIsUnmarked(raw: RawHop, showPrivate: bool)
    ensures !Shown(raw, showPrivate).reached
  {
  }

  /** But for the mark, a message shows the hop as parsed and masked. */
  lemma {:induction false} MessagesShowHops(raws: seq<RawHop>, i: nat, target: IpText, showPrivate: bool)
    requires i < |raws|
    ensures var hop, message := HopOf(raws[i].number, raws[i].segments).data, Announced(raws, i, target, showPrivate);
            message.(reached := false) == Masked(hop, showPrivate)
  {
    ParsedIsUnmarked(raws[i], showPrivate);
  }

  /** At most one message is marked, and one is exactly when some hop contains the target; with an
      unblocked target, masking makes no difference to this. */
  lemma {:induction false} OneHopIsMarked(raws: seq<RawHop>, target: IpText, showPrivate: bool)
    requires target.parsed.Some? && !IsIpBlocked(target)
    ensures forall i, j :: 0 <= i < j < |raws| ==>
              !(Announced(raws, i, target, showPrivate).reached && Announced(raws, j, target, showPrivate).reached)
    ensures (exists i :: 0 <= i < |raws| && Announced(raws, i, target, showPrivate).reached)
       <==> ReachedBefore(raws, |raws|, target, showPrivate)
    ensures ReachedBefore(raws, |raws|, target, showPrivate)
       <==> exists i :: 0 <= i < |raws| && ContainsTarget(raws[i].segments, target)
  {
    forall i | 0 <= i < |raws|
      ensures Announced(raws, i, target, showPrivate).reached
         <==> Hits(Shown(raws[i], showPrivate), target) && !ReachedBefore(raws, i, target, showPrivate)
      ensures Hits(Shown(raws[i], showPrivate), target) <==> ContainsTarget(raws[i].segments, target)
    {
      HitsExactly(raws[i].number, raws[i].segments, target);
      ParsedIsUnmarked(raws[i], showPrivate);
      MaskingKeepsDestination(HopOf(raws[i].number, raws[i].segments).data, target, showPrivate);
    }
    if ReachedBefore(raws, |raws|, target, showPrivate) {
      var i := FirstReached(raws, |raws|, target, showPrivate);
      assert Announced(raws, i, target, showPrivate).reached;
    }
  }

  lemma {:induction false} FirstReached(raws: seq<RawHop>, n: nat, target: IpText, showPrivate: bool)
      returns (first: nat)
    requires n <= |raws| && ReachedBefore(raws, n, target, showPrivate)
    ensures first < n && Hits(Shown(raws[first], showPrivate), target)
              && !ReachedBefore(raws, first, target, showPrivate)
  {
    if ReachedBefore(raws, n - 1, target, showPrivate) {
      first := FirstReached(raws, n - 1, target, showPrivate);
    } else {
      first := n - 1;
    }
  }
}
