/** The summary of a ping run: counts, loss, and round-trip statistics over exact reals, rounded to
    tenths at the end. */
module PingSummary {
  import opened Common
  import opened PingStream

  /** Rounding to one decimal, in tenths; halves go to the even neighbour. */
  function RoundTenths(x: real): int {
    var scaled := x * 10.0;
    var low := scaled.Floor;
    var rest := scaled - low as real;
    if rest < 0.5 || (rest == 0.5 && low % 2 == 0) then low else low + 1
  }

  /** Rounding is to the nearest tenth, and to an even one when two are nearest. */
  lemma {:induction false} RoundMeaning(x: real, t: int)
    ensures RoundTenths(x) == t
       <==> t as real - 0.5 <= x * 10.0 <= t as real + 0.5
            && (x * 10.0 == t as real - 0.5 || x * 10.0 == t as real + 0.5 ==> t % 2 == 0)
  {
  }

  lemma {:induction false} RoundMonotone(x: real, y: real)
    requires x <= y
    ensures RoundTenths(x) <= RoundTenths(y)
  {
    assert (x * 10.0).Floor <= (y * 10.0).Floor;
  }

  /** The packets that were answered. */
  function Answered(results: map<nat, Item>): set<nat> {
    set k | k in results && results[k].Reply?
  }

  function Transmitted(results: map<nat, Item>, expected: int): nat {
    var largest := MaxKey(results.Keys);
    if expected > largest then expected else largest
  }

  function Received(results: map<nat, Item>): nat {
    |Answered(results)|
  }

  /** The percentage of packets lost, in tenths. */
  function LossTenths(transmitted: nat, received: nat): int {
    if transmitted > 0 then RoundTenths((transmitted - received) as real / transmitted as real * 100.0) else 0
  }

  // ----- statistics

  function Sum(values: seq<real>, n: nat): real
    requires n <= |values|
  {
    if n == 0 then 0.0 else Sum(values, n - 1) + values[n - 1]
  }

  function Min(values: seq<real>, n: nat): real
    requires 0 < n <= |values|
  {
    if n == 1 || values[n - 1] < Min(values, n - 1) then values[n - 1] else Min(values, n - 1)
  }

  function Max(values: seq<real>, n: nat): real
    requires 0 < n <= |values|
  {
    if n == 1 || values[n - 1] > Max(values, n - 1) then values[n - 1] else Max(values, n - 1)
  }

  function Mean(values: seq<real>): real
    requires values != []
  {
    Sum(values, |values|) / |values| as real
  }

  /** The sum of squared distances from `m`. */
  function Spread(values: seq<real>, m: real, n: nat): real
    requires n <= |values|
  {
    if n == 0 then 0.0 else Spread(values, m, n - 1) + (values[n - 1] - m) * (values[n - 1] - m)
  }

  /** `d` is the population standard deviation, taken as zero for fewer than two values. */
  ghost predicate IsDeviation(values: seq<real>, d: real) {
    if |values| < 2 then d == 0.0
    else d >= 0.0 && d * d == Spread(values, Mean(values), |values|) / |values| as real
  }

  datatype Summary = Summary(
    transmitted: nat, received: nat, lost: int, lossTenths: int,
    minTenths: Option<int>, avgTenths: Option<int>, maxTenths: Option<int>, mdevTenths: Option<int>)

  /** The round-trip times of the answered packets, in the order of the table. */
  function Rtts(results: map<nat, Item>, order: seq<nat>, n: nat): seq<real>
    requires n <= |order| && forall i :: 0 <= i < |order| ==> order[i] in results
  {
    if n == 0 then []
    else Rtts(results, order, n - 1) + if results[order[n - 1]].Reply? then [results[order[n - 1]].rtt] else []
  }

  /** The order in which the table lists its packets. */
  ghost predicate IsOrder(results: map<nat, Item>, order: seq<nat>) {
    NoDuplicates(order) && Elements(order) == results.Keys && forall i :: 0 <= i < |order| ==> order[i] in results
  }

  /** `tenths` is the percentage that `part` is of `whole`, in tenths, rounded to nearest and half to even. */
  predicate IsRoundedShare(tenths: int, part: int, whole: int) {
    var twice := 2 * (tenths * whole - 1000 * part);
    -whole <= twice <= whole && (twice == whole || twice == -whole ==> tenths % 2 == 0)
  }

  /** These are, rounded, the smallest and the largest time of an answered packet. */
  ghost predicate AreExtremes(results: map<nat, Item>, smallest: int, largest: int) {
    && (forall k :: k in results && results[k].Reply? ==> smallest <= RoundTenths(results[k].rtt) <= largest)
    && (exists k :: k in results && results[k].Reply? && smallest == RoundTenths(results[k].rtt))
    && (exists k :: k in results && results[k].Reply? && largest == RoundTenths(results[k].rtt))
  }

  /** The statistics are those of exactly one round-trip time per answered packet; the deviation, a square
      root, is given. */
  method BuildSummary(results: map<nat, Item>, order: seq<nat>, expected: int, deviation: real) returns (s: Summary)
    requires IsOrder(results, order) && IsDeviation(Rtts(results, order, |order|), deviation)
    ensures s.transmitted >= expected && forall k :: k in results ==> k <= s.transmitted
    ensures s.transmitted == expected || s.transmitted == 0 || s.transmitted in results
    ensures s.received + s.lost == s.transmitted
    ensures s.transmitted == Transmitted(results, expected) && s.received == Received(results)
    ensures s.lossTenths == LossTenths(s.transmitted, s.received)
    ensures |Rtts(results, order, |order|)| == s.received
    ensures s.received == 0 ==> s.minTenths == s.avgTenths == s.maxTenths == None
    ensures s.received > 0 ==>
              var rtts := Rtts(results, order, |order|);
              && s.minTenths == Some(RoundTenths(Min(rtts, |rtts|)))
              && s.avgTenths == Some(RoundTenths(Mean(rtts)))
              && s.maxTenths == Some(RoundTenths(Max(rtts, |rtts|)))
              && s.minTenths.value <= s.avgTenths.value <= s.maxTenths.value
              && AreExtremes(results, s.minTenths.value, s.maxTenths.value)
    ensures s.mdevTenths == if s.received >= 2 then Some(RoundTenths(deviation)) else None
    ensures s.received >= 2 ==>
              var rtts := Rtts(results, order, |order|);
              0 <= s.mdevTenths.value <= RoundTenths((Max(rtts, |rtts|) - Min(rtts, |rtts|)) / 2.0)
    ensures s.lost >= 0 ==> 0 <= s.lossTenths <= 1000
  {
    var transmitted := Transmitted(results, expected);
    var received: nat := 0;
    var rtts: seq<real> := [];
    for i := 0 to |order|
      invariant received == |rtts| && rtts == Rtts(results, order, i)
    {
      if results[order[i]].Reply? {
        received := received + 1;
        rtts := rtts + [results[order[i]].rtt];
      }
    }
    RttsAreAnswered(results, order);
    var lost: int := transmitted - received;
    var loss := LossTenths(transmitted, received);
    if lost >= 0 {
      LossInRange(transmitted, received);
    }
    if rtts == [] {
      s := Summary(transmitted, received, lost, loss, None, None, None, None);
    } else {
      var fastest, average, slowest := RttStatistics(rtts);
      ExtremesAreAnswered(results, order);
      var mdev := if |rtts| >= 2 then Some(RoundTenths(deviation)) else None;
      DeviationWithinRange(rtts, deviation);
      RoundMonotone(0.0, deviation);
      RoundMonotone(deviation, (Max(rtts, |rtts|) - Min(rtts, |rtts|)) / 2.0);
      s := Summary(transmitted, received, lost, loss, Some(fastest), Some(average), Some(slowest), mdev);
    }
  }

  /** Smallest, mean and largest round-trip time, rounded; rounding keeps their order. */
  method RttStatistics(rtts: seq<real>) returns (fastest: int, average: int, slowest: int)
    requires rtts != []
    ensures fastest == RoundTenths(Min(rtts, |rtts|)) && slowest == RoundTenths(Max(rtts, |rtts|))
    ensures average == RoundTenths(Mean(rtts))
    ensures fastest <= average <= slowest
  {
    MeanBetween(rtts);
    RoundMonotone(Min(rtts, |rtts|), Mean(rtts));
    RoundMonotone(Mean(rtts), Max(rtts, |rtts|));
    fastest, average, slowest :=
        RoundTenths(Min(rtts, |rtts|)), RoundTenths(Mean(rtts)), RoundTenths(Max(rtts, |rtts|));
  }

  // ----- counts

  /** The answered packets among the first `n` of the table. */
  function AnsweredAmong(results: map<nat, Item>, order: seq<nat>, n: nat): set<nat>
    requires n <= |order| && forall i :: 0 <= i < |order| ==> order[i] in results
  {
    if n == 0 then {}
    else AnsweredAmong(results, order, n - 1) + if results[order[n - 1]].Reply? then {order[n - 1]} else {}
  }

  lemma {:induction false} AnsweredAmongMeaning(results: map<nat, Item>, order: seq<nat>, n: nat)
    requires n <= |order| && forall i :: 0 <= i < |order| ==> order[i] in results
    ensures forall k :: k in AnsweredAmong(results, order, n) <==>
              exists i :: 0 <= i < n && order[i] == k && results[order[i]].Reply?
  {
    if n != 0 {
      AnsweredAmongMeaning(results, order, n - 1);
    }
  }

  lemma {:induction false} AnsweredIsNew(results: map<nat, Item>, order: seq<nat>, n: nat)
    requires n < |order| && forall i :: 0 <= i < |order| ==> order[i] in results
    requires NoDuplicates(order)
    ensures order[n] !in AnsweredAmong(results, order, n)
  {
    AnsweredAmongMeaning(results, order, n);
  }

  lemma {:induction false} RttsCount(results: map<nat, Item>, order: seq<nat>, n: nat)
    requires n <= |order| && forall i :: 0 <= i < |order| ==> order[i] in results
    requires NoDuplicates(order)
    ensures |Rtts(results, order, n)| == |AnsweredAmong(results, order, n)|
    decreases n
  {
    if n != 0 {
      RttsCount(results, order, n - 1);
      AnsweredIsNew(results, order, n - 1);
    }
  }

  /** One round-trip time for every answered packet. */
  lemma {:induction false} RttsAreAnswered(results: map<nat, Item>, order: seq<nat>)
    requires IsOrder(results, order)
    ensures |Rtts(results, order, |order|)| == Received(results)
  {
    RttsCount(results, order, |order|);
    AnsweredAmongMeaning(results, order, |order|);
    assert AnsweredAmong(results, order, |order|) == Answered(results) by {
      forall k | k in Answered(results)
        ensures k in AnsweredAmong(results, order, |order|)
      {
        assert k in Elements(order);
        var i :| 0 <= i < |order| && order[i] == k;
      }
    }
  }

  lemma {:induction false} NumbersSize(n: nat)
    ensures |Numbers(n)| == n
  {
    if n != 0 {
      NumbersSize(n - 1);
    }
  }

  /** The packet numbers from 0 to `n`. */
  function UpTo(n: nat): (r: set<nat>)
    ensures forall k: nat :: k in r <==> k <= n
  {
    Numbers(n) + {0}
  }

  lemma {:induction false} AnsweredInRange(results: map<nat, Item>, expected: int)
    ensures var t := Transmitted(results, expected);
            && Received(results) <= t + 1
            && (Received(results) == t + 1 <==> Answered(results) == UpTo(t))
  {
    var t := Transmitted(results, expected);
    NumbersSize(t);
    assert |UpTo(t)| == t + 1;
    assert Answered(results) <= UpTo(t);
    SubsetSize(Answered(results), UpTo(t));
  }

  /** The loss is never negative, unless packet 0 and all others up to the last were answered. */
  lemma {:induction false} LossIsNegativeOnlyFromZero(results: map<nat, Item>, expected: int)
    ensures var t := Transmitted(results, expected);
            Received(results) > t <==> forall k: nat :: k <= t ==> k in Answered(results)
  {
    var t := Transmitted(results, expected);
    AnsweredInRange(results, expected);
    if forall k: nat :: k <= t ==> k in Answered(results) {
      assert UpTo(t) <= Answered(results);
      SubsetSize(UpTo(t), Answered(results));
      NumbersSize(t);
      assert |UpTo(t)| == t + 1;
    }
  }

  /** Packets are numbered from 1: then what was received was also transmitted. */
  lemma {:induction false} LossIsNotNegative(results: map<nat, Item>, expected: int)
    requires 0 !in results
    ensures Received(results) <= Transmitted(results, expected)
  {
    LossIsNegativeOnlyFromZero(results, expected);
    assert 0 !in Answered(results);
  }

  /** The loss is zero when nothing was transmitted, and else the rounded share of the packets lost. */
  lemma {:induction false} LossMeaning(transmitted: nat, received: nat)
    ensures transmitted == 0 ==> LossTenths(transmitted, received) == 0
    ensures transmitted > 0 ==>
              IsRoundedShare(LossTenths(transmitted, received), transmitted - received, transmitted)
  {
    if transmitted > 0 {
      var t, lost := LossTenths(transmitted, received), transmitted - received;
      var share := lost as real / transmitted as real * 100.0;
      RoundMeaning(share, t);
      CastProduct(t, transmitted);
      Multiplied(t as real, transmitted as real, lost as real, share, (t * transmitted) as real);
      InWholeNumbers(t, lost, transmitted, t * transmitted);
    }
  }

  /** The bounds of rounding, multiplied by the whole. */
  lemma {:induction false} Multiplied(t: real, w: real, lost: real, share: real, product: real)
    requires w > 0.0 && share == lost / w * 100.0 && product == t * w
    requires t - 0.5 <= share * 10.0 <= t + 0.5
    ensures product - 0.5 * w <= 1000.0 * lost <= product + 0.5 * w
    ensures product - 0.5 * w == 1000.0 * lost ==> share * 10.0 == t - 0.5
    ensures 1000.0 * lost == product + 0.5 * w ==> share * 10.0 == t + 0.5
  {
    ShareTimesWhole(lost, w);
    ScaledBy(t - 0.5, share * 10.0, t + 0.5, w, product - 0.5 * w, 1000.0 * lost, product + 0.5 * w);
  }

  lemma {:induction false} InWholeNumbers(t: int, lost: int, whole: int, product: int)
    requires product == t * whole
    requires product as real - 0.5 * whole as real <= 1000.0 * lost as real <= product as real + 0.5 * whole as real
    requires product as real - 0.5 * whole as real == 1000.0 * lost as real ==> t % 2 == 0
    requires 1000.0 * lost as real == product as real + 0.5 * whole as real ==> t % 2 == 0
    ensures IsRoundedShare(t, lost, whole)
  {
    WithoutCasts(product, lost, whole);
  }

  lemma {:induction false} WithoutCasts(product: int, lost: int, whole: int)
    ensures product as real - 0.5 * whole as real <= 1000.0 * lost as real <==> 2 * (product - 1000 * lost) <= whole
    ensures 1000.0 * lost as real <= product as real + 0.5 * whole as real <==> -whole <= 2 * (product - 1000 * lost)
    ensures product as real - 0.5 * whole as real == 1000.0 * lost as real <==> 2 * (product - 1000 * lost) == whole
    ensures 1000.0 * lost as real == product as real + 0.5 * whole as real <==> -whole == 2 * (product - 1000 * lost)
  {
  }

  lemma {:induction false} CastProduct(a: int, b: int)
    ensures a as real * b as real == (a * b) as real
  {
  }

  lemma {:induction false} ShareTimesWhole(part: real, whole: real)
    requires whole > 0.0
    ensures part / whole * 100.0 * 10.0 * whole == 1000.0 * part
  {
    var share := part / whole;
    assert share * whole == part;
    assert share * 100.0 * 10.0 * whole == 1000.0 * (share * whole);
  }

  lemma {:induction false} ScaledBy(a: real, b: real, c: real, w: real, aw: real, bw: real, cw: real)
    requires w > 0.0 && a <= b <= c && aw == a * w && bw == b * w && cw == c * w
    ensures aw <= bw <= cw && (aw == bw <==> a == b) && (bw == cw <==> b == c)
  {
    if a < b {
      ScaleLess(a, b, w);
    }
    if b < c {
      ScaleLess(b, c, w);
    }
  }

  lemma {:induction false} LossInRange(transmitted: nat, received: nat)
    requires received <= transmitted
    ensures 0 <= LossTenths(transmitted, received) <= 1000
  {
    if transmitted > 0 {
      var share := (transmitted - received) as real / transmitted as real;
      assert 0.0 <= share <= 1.0;
      RoundMonotone(0.0, share * 100.0);
      RoundMonotone(share * 100.0, 100.0);
    }
  }

  // ----- round-trip times

  /** The times collected are those of the answered packets among the first `n`. */
  lemma {:induction false} RttsHold(results: map<nat, Item>, order: seq<nat>, n: nat)
    requires n <= |order| && forall i :: 0 <= i < |order| ==> order[i] in results
    ensures forall i :: 0 <= i < n && results[order[i]].Reply? ==> results[order[i]].rtt in Rtts(results, order, n)
    ensures forall x :: x in Rtts(results, order, n) ==>
              exists i :: 0 <= i < n && results[order[i]].Reply? && results[order[i]].rtt == x
    decreases n
  {
    if n != 0 {
      RttsHold(results, order, n - 1);
    }
  }

  lemma {:induction false} ExtremesAreMembers(values: seq<real>, n: nat)
    requires 0 < n <= |values|
    ensures Min(values, n) in values && Max(values, n) in values
    decreases n
  {
    if n > 1 {
      ExtremesAreMembers(values, n - 1);
    }
  }

  lemma {:induction false} ExtremesAreAnswered(results: map<nat, Item>, order: seq<nat>)
    requires IsOrder(results, order) && Rtts(results, order, |order|) != []
    ensures var rtts := Rtts(results, order, |order|);
            AreExtremes(results, RoundTenths(Min(rtts, |rtts|)), RoundTenths(Max(rtts, |rtts|)))
  {
    var rtts := Rtts(results, order, |order|);
    RttsHold(results, order, |order|);
    ExtremesAreMembers(rtts, |rtts|);
    forall k | k in results && results[k].Reply?
      ensures RoundTenths(Min(rtts, |rtts|)) <= RoundTenths(results[k].rtt) <= RoundTenths(Max(rtts, |rtts|))
    {
      assert k in Elements(order);
      var i :| 0 <= i < |order| && order[i] == k;
      var j :| 0 <= j < |rtts| && rtts[j] == results[k].rtt;
      Bounds(rtts, |rtts|, j);
      RoundMonotone(Min(rtts, |rtts|), rtts[j]);
      RoundMonotone(rtts[j], Max(rtts, |rtts|));
    }
  }

  lemma {:induction false} Bounds(values: seq<real>, n: nat, i: nat)
    requires i < n <= |values|
    ensures Min(values, n) <= values[i] <= Max(values, n)
  {
    if i < n - 1 {
      Bounds(values, n - 1, i);
    }
  }

  lemma {:induction false} SumBetween(values: seq<real>, lo: real, hi: real, n: nat)
    requires n <= |values| && forall i :: 0 <= i < |values| ==> lo <= values[i] <= hi
    ensures lo * n as real <= Sum(values, n) <= hi * n as real
  {
    if n != 0 {
      SumBetween(values, lo, hi, n - 1);
      assert lo * n as real == lo * (n - 1) as real + lo;
      assert hi * n as real == hi * (n - 1) as real + hi;
    }
  }

  lemma {:induction false} MeanBetween(values: seq<real>)
    requires values != []
    ensures Min(values, |values|) <= Mean(values) <= Max(values, |values|)
  {
    var n := |values|;
    var lo, hi := Min(values, n), Max(values, n);
    forall i | 0 <= i < n
      ensures lo <= values[i] <= hi
    {
      Bounds(values, n, i);
    }
    SumBetween(values, lo, hi, n);
    QuotientBetween(Sum(values, n), lo, hi, n as real);
  }

  lemma {:induction false} ScaleLess(a: real, b: real, n: real)
    requires a < b && n > 0.0
    ensures a * n < b * n
  {
  }

  lemma {:induction false} ProductNonNegative(a: real, b: real)
    requires a >= 0.0 && b >= 0.0
    ensures a * b >= 0.0
  {
  }

  lemma {:induction false} QuotientBetween(x: real, lo: real, hi: real, n: real)
    requires n > 0.0 && lo * n <= x <= hi * n
    ensures lo <= x / n <= hi
  {
    var q := x / n;
    assert x == q * n;
    if q < lo {
      ScaleLess(q, lo, n);
    }
    if q > hi {
      ScaleLess(hi, q, n);
    }
  }

  lemma {:induction false} SquareStep(x: real, m: real, lo: real, hi: real)
    requires lo <= x <= hi
    ensures (x - m) * (x - m) <= (lo + hi - 2.0 * m) * x - lo * hi + m * m
  {
    ProductNonNegative(hi - x, x - lo);
    assert (hi - x) * (x - lo) == (lo + hi) * x - lo * hi - x * x;
    assert (x - m) * (x - m) == x * x - 2.0 * m * x + m * m;
  }

  lemma {:induction false} SpreadBound(values: seq<real>, m: real, lo: real, hi: real, n: nat)
    requires n <= |values| && forall i :: 0 <= i < |values| ==> lo <= values[i] <= hi
    ensures Spread(values, m, n) <= (lo + hi - 2.0 * m) * Sum(values, n) + (m * m - lo * hi) * n as real
  {
    if n != 0 {
      SpreadBound(values, m, lo, hi, n - 1);
      var x, c, d := values[n - 1], lo + hi - 2.0 * m, m * m - lo * hi;
      SquareStep(x, m, lo, hi);
      assert c * Sum(values, n) == c * Sum(values, n - 1) + c * x;
      assert d * n as real == d * (n - 1) as real + d;
    }
  }

  /** A bound on the spread of `k` values with mean `m` between `lo` and `hi`. */
  function Envelope(lo: real, hi: real, m: real, k: real): real {
    (lo + hi - 2.0 * m) * (m * k) + (m * m - lo * hi) * k
  }

  function QuarterSquare(range: real): real {
    range * range / 4.0
  }

  lemma {:induction false} EnvelopeOfSum(spread: real, sum: real, lo: real, hi: real, m: real, k: real)
    requires sum == m * k && spread <= (lo + hi - 2.0 * m) * sum + (m * m - lo * hi) * k
    ensures spread <= Envelope(lo, hi, m, k)
  {
  }

  lemma {:induction false} VarianceOfSpread(spread: real, lo: real, hi: real, m: real, k: real)
    requires k > 0.0 && 0.0 <= spread <= Envelope(lo, hi, m, k)
    ensures 0.0 <= spread / k <= QuarterSquare(hi - lo)
  {
    CentredBound(lo, hi, m, k);
    QuotientBetween(spread, 0.0, QuarterSquare(hi - lo), k);
  }

  lemma {:induction false} AllBetween(values: seq<real>, lo: real, hi: real)
    requires values != [] && lo == Min(values, |values|) && hi == Max(values, |values|)
    ensures forall i :: 0 <= i < |values| ==> lo <= values[i] <= hi
  {
    forall i | 0 <= i < |values|
      ensures lo <= values[i] <= hi
    {
      Bounds(values, |values|, i);
    }
  }

  lemma {:induction false} SpreadAroundMean(values: seq<real>, m: real, lo: real, hi: real)
    requires values != [] && m == Mean(values)
    requires lo == Min(values, |values|) && hi == Max(values, |values|)
    ensures Spread(values, m, |values|) <= Envelope(lo, hi, m, |values| as real)
  {
    AllBetween(values, lo, hi);
    SpreadBetween(values, m, lo, hi, Spread(values, m, |values|), Sum(values, |values|), |values| as real);
  }

  lemma {:induction false} SpreadBetween(values: seq<real>, m: real, lo: real, hi: real, spread: real, sum: real,
                                         k: real)
    requires values != [] && m == Mean(values) && forall i :: 0 <= i < |values| ==> lo <= values[i] <= hi
    requires spread == Spread(values, m, |values|) && sum == Sum(values, |values|) && k == |values| as real
    ensures spread <= Envelope(lo, hi, m, k)
  {
    SumIsMean(values);
    SpreadBound(values, m, lo, hi, |values|);
    EnvelopeOfSum(spread, sum, lo, hi, m, k);
  }

  lemma {:induction false} SumIsMean(values: seq<real>)
    requires values != []
    ensures Sum(values, |values|) == Mean(values) * |values| as real
  {
  }

  lemma {:induction false} CentredBound(lo: real, hi: real, m: real, k: real)
    requires k > 0.0
    ensures Envelope(lo, hi, m, k) <= QuarterSquare(hi - lo) * k
  {
    var e := (hi - m) * (m - lo);
    assert (lo + hi - 2.0 * m) * (m * k) + (m * m - lo * hi) * k == e * k by {
      assert (lo + hi - 2.0 * m) * m + (m * m - lo * hi) == e;
      assert (lo + hi - 2.0 * m) * (m * k) == ((lo + hi - 2.0 * m) * m) * k;
    }
    var h := (lo + hi) / 2.0 - m;
    assert (hi - lo) * (hi - lo) / 4.0 - e == h * h;
    assert h * h >= 0.0;
  }

  /** The variance is at most a quarter of the square of the range. */
  lemma {:induction false} VarianceBound(values: seq<real>)
    requires values != []
    ensures var range := Max(values, |values|) - Min(values, |values|);
            0.0 <= Spread(values, Mean(values), |values|) / |values| as real <= QuarterSquare(range)
  {
    var lo, hi, m, k := Min(values, |values|), Max(values, |values|), Mean(values), |values| as real;
    SpreadAroundMean(values, m, lo, hi);
    SpreadNonNegative(values, m, |values|);
    VarianceOfSpread(Spread(values, m, |values|), lo, hi, m, k);
  }

  lemma {:induction false} HalfRange(d: real, range: real, variance: real)
    requires d >= 0.0 && range >= 0.0 && d * d == variance <= QuarterSquare(range)
    ensures 2.0 * d <= range
  {
    var twice := 2.0 * d;
    assert twice * twice == 4.0 * (d * d) <= range * range;
    if twice > range {
      ScaleLess(range, twice, twice);
      ProductNonNegative(range, twice - range);
      assert range * (twice - range) == range * twice - range * range;
    }
  }

  /** The deviation reported is at most half the distance between the fastest and the slowest reply. */
  lemma {:induction false} DeviationWithinRange(values: seq<real>, d: real)
    requires values != [] && IsDeviation(values, d)
    ensures 0.0 <= 2.0 * d <= Max(values, |values|) - Min(values, |values|)
  {
    Bounds(values, |values|, 0);
    if |values| >= 2 {
      VarianceBound(values);
      HalfRange(d, Max(values, |values|) - Min(values, |values|),
                Spread(values, Mean(values), |values|) / |values| as real);
    }
  }

  lemma {:induction false} SpreadNonNegative(values: seq<real>, m: real, n: nat)
    requires n <= |values|
    ensures Spread(values, m, n) >= 0.0
  {
    if n != 0 {
      SpreadNonNegative(values, m, n - 1);
    }
  }
}
