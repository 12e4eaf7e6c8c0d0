/** Streaming of ping results: a reader of the output and a watcher of timeouts share one table of
    results; whatever is missing at the end is filled in. */
module PingStream {
  import opened Common

  datatype Item = Reply(bytes: nat, sender: string, ttl: nat, rtt: real) | Timeout

  /** A line of output as the reader classifies it.  Only timeouts can come without a number. */
  datatype Line =
    | ReplyLine(number: nat, reply: Item)
    | TimeoutLine(number: nat)
    | AnonymousTimeout
    | LocalError
    | OtherLine

  datatype Message = Message(number: nat, item: Item)

  /** Parameters of a run; times in seconds. */
  datatype Setup = Setup(count: int, start: real, packetTimeout: real)

  const PING_INTERVAL := 1.0

  /** A step of one of the two tasks: bookkeeping and sending together. */
  datatype Event = Read(line: Line) | Watch(number: nat, now: real)

  datatype PingState = PingState(results: map<nat, Item>, received: set<nat>, sent: seq<Message>)

  const EMPTY := PingState(map[], {}, [])

  /** The largest number recorded, or 0. */
  function MaxKey(keys: set<nat>): (k: nat)
    ensures forall x :: x in keys ==> x <= k
    ensures keys != {} ==> k in keys
    ensures keys == {} ==> k == 0
  {
    if keys == {} then 0
    else
      MaxExists(keys);
      var k :| k in keys && forall x :: x in keys ==> x <= k;
      k
  }

  lemma {:induction false} MaxExists(keys: set<nat>)
    requires keys != {}
    ensures exists k :: k in keys && forall x :: x in keys ==> x <= k
    decreases |keys|
  {
    var k :| k in keys;
    var rest := keys - {k};
    if rest == {} {
      assert keys == {k};
    } else {
      MaxExists(rest);
      var m :| m in rest && forall x :: x in rest ==> x <= m;
      var best := if m < k then k else m;
      forall x | x in keys
        ensures x <= best
      {
        assert x == k || x in rest;
      }
      assert best in keys;
    }
  }

  /** The packet numbers from 1 to `n`. */
  function Numbers(n: nat): (r: set<nat>)
    ensures forall k :: k in r <==> 1 <= k <= n
  {
    if n == 0 then {} else Numbers(n - 1) + {n}
  }

  // ----- the steps

  function Record(st: PingState, number: nat, item: Item): PingState {
    PingState(st.results[number := item], st.received + {number}, st.sent + [Message(number, item)])
  }

  /** When the reply to a packet is overdue. */
  predicate Overdue(setup: Setup, number: nat, now: real) {
    now >= setup.start + (number as real - 1.0) * PING_INTERVAL + setup.packetTimeout
  }

  predicate WatchFires(setup: Setup, st: PingState, number: nat, now: real) {
    1 <= number <= setup.count && number !in st.received && Overdue(setup, number, now)
  }

  function Step(setup: Setup, st: PingState, e: Event): PingState {
    match e
    case Read(ReplyLine(number, reply)) => Record(st, number, reply)
    case Read(TimeoutLine(number)) => Record(st, number, Timeout)
    case Read(AnonymousTimeout) => Record(st, MaxKey(st.results.Keys) + 1, Timeout)
    case Read(_) => st
    case Watch(number, now) => if WatchFires(setup, st, number, now) then Record(st, number, Timeout) else st
  }

  /** The state after any interleaving of steps. */
  function Run(setup: Setup, events: seq<Event>, n: nat): PingState
    requires n <= |events|
  {
    if n == 0 then EMPTY else Step(setup, Run(setup, events, n - 1), events[n - 1])
  }

  /** The final fill: numbers 1 to `n` that were never received are reported as timeouts. */
  function Filled(st: PingState, n: nat): PingState {
    if n == 0 then st
    else
      var before := Filled(st, n - 1);
      if n in st.received then before
      else before.(results := before.results[n := Timeout], sent := before.sent + [Message(n, Timeout)])
  }

  class PingStreamer {
    const setup: Setup
    var results: map<nat, Item>
    var received: set<nat>
    var sent: seq<Message>

    function State(): PingState
      reads this
    {
      PingState(results, received, sent)
    }

    constructor (setup: Setup)
      ensures this.setup == setup && State() == EMPTY
    {
      this.setup := setup;
      results, received, sent := map[], {}, [];
    }

    method ReadLine(line: Line)
      modifies this
      ensures State() == Step(setup, old(State()), Read(line))
    {
      if line.LocalError? || line.OtherLine? {
        return;
      }
      var number := if line.AnonymousTimeout? then MaxKey(results.Keys) + 1 else line.number;
      var item := if line.ReplyLine? then line.reply else Timeout;
      results := results[number := item];
      received := received + {number};
      sent := sent + [Message(number, item)];
    }

    /** The watcher's look at one packet. */
    method WatchTimeout(number: nat, now: real)
      requires 1 <= number <= setup.count
      modifies this
      ensures State() == Step(setup, old(State()), Watch(number, now))
    {
      if number in received {
        return;
      }
      var sendTime := setup.start + (number as real - 1.0) * PING_INTERVAL;
      if now >= sendTime + setup.packetTimeout {
        results := results[number := Timeout];
        received := received + {number};
        sent := sent + [Message(number, Timeout)];
      }
    }

    method FillMissing(useCount: int)
      modifies this
      ensures State() == Filled(old(State()), if useCount > 0 then useCount else 0)
    {
      if useCount > 0 {
        for s := 1 to useCount + 1
          invariant State() == Filled(old(State()), s - 1)
          invariant received == old(received)
        {
          if s !in received {
            results := results[s := Timeout];
            sent := sent + [Message(s, Timeout)];
          }
        }
      }
    }
  }

  // ----- what every interleaving keeps

  /** The last message about a packet. */
  function LastSent(sent: seq<Message>, number: nat): Option<Item> {
    if sent == [] then None
    else if sent[|sent| - 1].number == number then Some(sent[|sent| - 1].item)
    else LastSent(sent[..|sent| - 1], number)
  }

  lemma {:induction false} LastSentSnoc(sent: seq<Message>, message: Message, number: nat)
    ensures LastSent(sent + [message], number)
              == if message.number == number then Some(message.item) else LastSent(sent, number)
  {
    assert (sent + [message])[..|sent|] == sent;
  }

  /** Every entry was reported, and what was reported last about a packet is its entry. */
  ghost predicate Reported(results: map<nat, Item>, sent: seq<Message>) {
    forall k :: LastSent(sent, k) == if k in results then Some(results[k]) else None
  }

  lemma {:induction false} ReportedSnoc(results: map<nat, Item>, sent: seq<Message>, number: nat, item: Item)
    requires Reported(results, sent)
    ensures Reported(results[number := item], sent + [Message(number, item)])
  {
    forall k
      ensures LastSent(sent + [Message(number, item)], k)
                == if k in results[number := item] then Some(results[number := item][k]) else None
    {
      LastSentSnoc(sent, Message(number, item), k);
    }
  }

  /** For every interleaving: the numbers received are those with an entry, and the messages agree
      with the table. */
  lemma {:induction false} RunInvariant(setup: Setup, events: seq<Event>, n: nat)
    requires n <= |events|
    ensures Run(setup, events, n).received == Run(setup, events, n).results.Keys
    ensures Reported(Run(setup, events, n).results, Run(setup, events, n).sent)
  {
    if n != 0 {
      RunInvariant(setup, events, n - 1);
      var st := Run(setup, events, n - 1);
      var next := Step(setup, st, events[n - 1]);
      if next != st {
        var message := next.sent[|st.sent|];
        ReportedSnoc(st.results, st.sent, message.number, message.item);
      }
    }
  }

  /** A step that changes the table sends exactly one message, about the entry it has made; any other step
      changes nothing. */
  lemma {:induction false} StepSendsWhatItRecords(setup: Setup, st: PingState, e: Event)
    ensures var after := Step(setup, st, e);
            || after == st
            || exists k, item :: && after.results == st.results[k := item] && after.received == st.received + {k}
                                 && after.sent == st.sent + [Message(k, item)]
  {
    var after := Step(setup, st, e);
    if after != st {
      var message := after.sent[|st.sent|];
      assert after == Record(st, message.number, message.item);
    }
  }

  /** The event brings about an entry for packet `k`: a line with its number, a look of the watcher at a
      packet of the run once its reply is overdue, or a timeout without number when all entries are for
      packets before it, the last of them just before. */
  ghost predicate Enters(setup: Setup, events: seq<Event>, i: nat, k: nat)
    requires i < |events|
  {
    match events[i]
    case Read(ReplyLine(number, _)) => number == k
    case Read(TimeoutLine(number)) => number == k
    case Read(AnonymousTimeout) =>
      var keys := Run(setup, events, i).results.Keys;
      (forall x :: x in keys ==> x < k) && (k == 1 || k - 1 in keys)
    case Read(_) => false
    case Watch(number, now) =>
      number == k && 1 <= k <= setup.count && now >= setup.start + (k as real - 1.0) + setup.packetTimeout
  }

  /** In every run there is an entry for a packet if and only if some event has brought one about. */
  lemma {:induction false} EntriesExactly(setup: Setup, events: seq<Event>, n: nat, k: nat)
    requires n <= |events|
    ensures k in Run(setup, events, n).results <==> exists i :: 0 <= i < n && Enters(setup, events, i, k)
    decreases n
  {
    if n != 0 {
      EntriesExactly(setup, events, n - 1, k);
      RunInvariant(setup, events, n - 1);
      EntryStep(setup, events, n - 1, k);
    }
  }

  lemma {:induction false} EntryStep(setup: Setup, events: seq<Event>, n: nat, k: nat)
    requires n < |events| && Run(setup, events, n).received == Run(setup, events, n).results.Keys
    ensures k in Run(setup, events, n + 1).results
       <==> k in Run(setup, events, n).results || Enters(setup, events, n, k)
  {
    var keys := Run(setup, events, n).results.Keys;
    if events[n] == Read(AnonymousTimeout) {
      assert k == MaxKey(keys) + 1 <==> (forall x :: x in keys ==> x < k) && (k == 1 || k - 1 in keys);
    }
  }

  /** The watcher only adds entries. */
  lemma {:induction false} WatcherNeverReplaces(setup: Setup, events: seq<Event>, n: nat, number: nat, now: real,
                                                k: nat)
    requires n <= |events| && k in Run(setup, events, n).results
    ensures var after := Step(setup, Run(setup, events, n), Watch(number, now));
            k in after.results && after.results[k] == Run(setup, events, n).results[k]
  {
    RunInvariant(setup, events, n);
  }

  /** So does the fill, which leaves an entry for every number up to its bound. */
  lemma {:induction false} FillCompletes(st: PingState, n: nat)
    requires st.received == st.results.Keys && Reported(st.results, st.sent)
    ensures var filled := Filled(st, n);
            && Reported(filled.results, filled.sent)
            && filled.results.Keys == st.results.Keys + Numbers(n)
            && (forall k :: k in st.results ==> filled.results[k] == st.results[k])
            && (forall k :: k in filled.results && k !in st.results ==> filled.results[k] == Timeout)
  {
    if n != 0 {
      FillCompletes(st, n - 1);
      var before := Filled(st, n - 1);
      if n !in st.received {
        ReportedSnoc(before.results, before.sent, n, Timeout);
      }
    }
  }

  /** The messages of the fill: those missing, from the smallest number on. */
  lemma {:induction false} FillSendsMissing(st: PingState, n: nat)
    ensures st.sent <= Filled(st, n).sent
    ensures forall i, j :: |st.sent| <= i < j < |Filled(st, n).sent| ==>
              Filled(st, n).sent[i].number < Filled(st, n).sent[j].number
    ensures forall i :: |st.sent| <= i < |Filled(st, n).sent| ==>
              1 <= Filled(st, n).sent[i].number <= n && Filled(st, n).sent[i].number !in st.received
    ensures forall k :: 1 <= k <= n && k !in st.received ==> Message(k, Timeout) in Filled(st, n).sent[|st.sent|..]
    decreases n
  {
    if n != 0 {
      FillSendsMissing(st, n - 1);
      var before, after := Filled(st, n - 1).sent, Filled(st, n).sent;
      if n !in st.received {
        assert after[|st.sent|..] == before[|st.sent|..] + [Message(n, Timeout)];
      }
    }
  }

  // ----- what the outcome depends on

  /** The numbered lines the reader saw, in order. */
  function Numbered(events: seq<Event>, n: nat): seq<Message>
    requires n <= |events|
  {
    if n == 0 then []
    else
      var before := Numbered(events, n - 1);
      match events[n - 1]
      case Read(ReplyLine(number, reply)) => before + [Message(number, reply)]
      case Read(TimeoutLine(number)) => before + [Message(number, Timeout)]
      case _ => before
  }

  /** Every entry is what the last numbered line about the packet said, and a timeout when there was none. */
  lemma {:induction false} EntriesComeFromReader(setup: Setup, events: seq<Event>, n: nat, number: nat)
    requires n <= |events|
    ensures var results, last := Run(setup, events, n).results, LastSent(Numbered(events, n), number);
            && (last.Some? ==> number in results && results[number] == last.value)
            && (last.None? && number in results ==> results[number] == Timeout)
  {
    if n != 0 {
      EntriesComeFromReader(setup, events, n - 1, number);
      RunInvariant(setup, events, n - 1);
      match events[n - 1]
      case Read(ReplyLine(k, reply)) => LastSentSnoc(Numbered(events, n - 1), Message(k, reply), number);
      case Read(TimeoutLine(k)) => LastSentSnoc(Numbered(events, n - 1), Message(k, Timeout), number);
      case _ =>
    }
  }

  /** The whole run: what is recorded, what was last reported, and where each value comes from. */
  lemma {:induction false} FinalResults(setup: Setup, events: seq<Event>, useCount: nat)
    ensures var st := Run(setup, events, |events|);
            var final := Filled(st, useCount);
            && final.results.Keys == st.received + Numbers(useCount)
            && Reported(final.results, final.sent)
            && forall k :: k in final.results ==>
                 final.results[k] == var last := LastSent(Numbered(events, |events|), k);
                                     if last.Some? then last.value else Timeout
  {
    var st := Run(setup, events, |events|);
    RunInvariant(setup, events, |events|);
    FillCompletes(st, useCount);
    forall k | k in Filled(st, useCount).results
      ensures Filled(st, useCount).results[k]
                == var last := LastSent(Numbered(events, |events|), k); if last.Some? then last.value else Timeout
    {
      EntriesComeFromReader(setup, events, |events|, k);
    }
  }

  /** Timing does not decide about replies: two runs in which the reader saw the same numbered lines end
      with the same replies for the same packets, however the watcher was interleaved. */
  lemma {:induction false} RepliesDoNotDependOnTiming(setup: Setup, events: seq<Event>, other: seq<Event>,
                                                      useCount: nat, k: nat)
    requires Numbered(events, |events|) == Numbered(other, |other|)
    ensures var one := Filled(Run(setup, events, |events|), useCount);
            var two := Filled(Run(setup, other, |other|), useCount);
            && (k in one.results && one.results[k].Reply? <==> k in two.results && two.results[k].Reply?)
            && (k in one.results && one.results[k].Reply? ==> one.results[k] == two.results[k])
  {
    RunInvariant(setup, events, |events|);
    RunInvariant(setup, other, |other|);
    FillCompletes(Run(setup, events, |events|), useCount);
    FillCompletes(Run(setup, other, |other|), useCount);
    EntriesComeFromReader(setup, events, |events|, k);
    EntriesComeFromReader(setup, other, |other|, k);
  }
}
