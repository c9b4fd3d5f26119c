/** What the whole pipeline guarantees, over every run of publishing, losing, duplicating, reordering and handling. */
module Guarantees {
  import opened Prelude
  import opened Books
  import opened BookProofs
  import opened BookKeys
  import opened BookTops
  import Protocol
  import Histories
  import Recovery
  import opened Generators
  import Publishing
  import opened Handling
  import HandlingProofs
  import opened PublishedLog
  import opened Pipeline

  /** `s` is where a run has got to that has published at most 2^32 - 2 packets, so no sequence number has wrapped. */
  ghost predicate Reached(c: Config, t: Trace, s: System) {
    && ValidTrace(c, t)
    && s == t.states[|t.steps|]
    && PacketCount(LogOf(s)) < U32_MAX
  }

  /** Safety: the handler never throws, and it has applied exactly the first `received` published messages, once
      each and in order. Short of the limit these are the messages of packets `1..expected - 1`; at the limit
      they are the first `limit` messages, even when that ends inside a packet. */
  lemma EndToEnd(c: Config, trace: Trace, s: System)
    requires Reached(c, trace, s)
    ensures s.handler.Running? && ValidLog(LogOf(s))
    ensures var h := s.handler.h;
            && 1 <= h.expected <= PacketCount(LogOf(s)) + 1
            && h.received <= |s.run.events|
            && h.book == ApplyAll(EMPTY_BOOK, s.run.events[..h.received])
            && h.alerts == AlertsIn(s.run.events, h.received)
            && (c.limit != 0 ==> h.received <= c.limit)
            && if LimitReached(h, c.limit) then
                 h.received == c.limit && h.expected >= 2 && s.cuts[h.expected - 2] < c.limit <= s.cuts[h.expected - 1]
               else h.received == s.cuts[h.expected - 1] && h.buffered == map[]
  {
    hide ApplyAll, AlertsIn, PublisherOk, ValidTrace;
    RunsKeepInvariant(c, trace, |trace.steps|);
  }

  ghost predicate OnTheWire(datagram: Bytes, l: Log)
    requires ValidLog(l)
  {
    exists k: u32 :: 1 <= k <= PacketCount(l) && datagram == Wire(l, k)
  }

  /** Recovery always succeeds on published traffic: between turns of the publish loop the history is exactly
      packets `1..sequence - 1`, dropped ones included, every datagram on the network is one of them, and any range
      a handler can be missing is answered in full and in order through the TCP framing. */
  lemma RecoveryAlwaysSucceeds(c: Config, trace: Trace, s: System, startSeq: u32, endSeq: u32)
    requires Reached(c, trace, s)
    requires 1 <= startSeq <= endSeq <= PacketCount(LogOf(s))
    ensures s.publisher.stored.None? ==>
              forall k: u32 :: k in s.publisher.history <==> 1 <= k < s.publisher.sequence
    ensures ValidLog(LogOf(s)) && forall b :: b in s.publisher.network ==> OnTheWire(b, LogOf(s))
    ensures var r := Recovery.Exchange(s.publisher.history, startSeq, endSeq);
            && r.Ok?
            && |r.value| == endSeq - startSeq + 1
            && forall i :: 0 <= i < |r.value| ==> r.value[i] == Wire(LogOf(s), startSeq + i)
  {
    hide Wire, Recovery.Exchange, ValidTrace, HandlerOk, FullPackets, CountersOk;
    RunsKeepInvariant(c, trace, |trace.steps|);
    forall b | b in s.publisher.network
      ensures OnTheWire(b, LogOf(s))
    {
      var k := WhichPacket(c, s, b);
    }
    RecoveryAnswers(s.publisher.history, LogOf(s), startSeq, endSeq);
  }

  /** What is on the network: a datagram is there if and only if it is one of the packets before `sequence` whose
      number `skipEvery` does not divide. A dropped packet is in the history only. */
  lemma NetworkExactly(c: Config, trace: Trace, s: System, datagram: Bytes)
    requires Reached(c, trace, s)
    ensures ValidLog(LogOf(s)) && s.publisher.sequence <= PacketCount(LogOf(s)) + 1
    ensures datagram in s.publisher.network
       <==> exists k: u32 :: && 1 <= k < s.publisher.sequence
                             && (c.options.skipEvery == 0 || k % c.options.skipEvery != 0)
                             && datagram == Wire(LogOf(s), k)
  {
    hide Wire, HandlerOk, ValidTrace, HistoryIs, CountersOk, FullPackets;
    RunsKeepInvariant(c, trace, |trace.steps|);
    var o, l, n := c.options, LogOf(s), Done(s);
    assert datagram in s.publisher.network <==> SentUpTo(datagram, o, l, n);
    if SentUpTo(datagram, o, l, n) {
      var k: u32 :| 1 <= k <= n && Kept(o, k) && datagram == Wire(l, k);
      assert 1 <= k < s.publisher.sequence && (o.skipEvery == 0 || k % o.skipEvery != 0) && datagram == Wire(l, k);
    }
    if k: u32 :| 1 <= k < s.publisher.sequence && (o.skipEvery == 0 || k % o.skipEvery != 0) && datagram == Wire(l, k) {
      assert 1 <= k <= n && Kept(o, k) && datagram == Wire(l, k);
    }
  }

  /** How the stream is packed: every packet is full but the last, which takes what is left. */
  lemma PacketsAreFull(c: Config, trace: Trace, s: System, k: nat)
    requires Reached(c, trace, s) && k <= PacketCount(LogOf(s))
    ensures |s.cuts| == PacketCount(LogOf(s)) + 1
    ensures var full := k * c.options.messagesPerPacket;
            s.cuts[k] == if full < c.options.messages then full else c.options.messages
  {
    hide HandlerOk, ValidTrace, PacketsOk, CountersOk;
    RunsKeepInvariant(c, trace, |trace.steps|);
    assert s.cuts[k] == CutAt(c.options, k);
  }

  /** A run whose publish loop has ended has published exactly the messages asked for, in as few packets as they
      fit in. */
  lemma FinishedRun(c: Config, trace: Trace, s: System)
    requires Reached(c, trace, s) && s.publisher.emitted == c.options.messages
    ensures c.options.messagesPerPacket > 0
    ensures var m := c.options.messagesPerPacket;
            && s.publisher.sequence - 1 == PacketCount(LogOf(s)) == (c.options.messages + m - 1) / m
            && |s.run.events| == c.options.messages
  {
    hide HandlerOk, StepAt, PacketsOk, CountersOk, CutAt;
    RunsKeepInvariant(c, trace, |trace.steps|);
    var n, m, messages := PacketCount(LogOf(s)), c.options.messagesPerPacket, c.options.messages;
    assert s.cuts[n] == |s.run.events| && s.cuts[Done(s)] == messages;
    assert 0 < n ==> CutOk(LogOf(s), n);
    LastCut(c.options, n);
    if n > 0 {
      assert s.cuts[n] == CutAt(c.options, n) && s.cuts[n - 1] == CutAt(c.options, n - 1);
    }
    QuotientIs(messages + m - 1, m, n, messages + m - 1 - m * n);
  }

  lemma LastCut(o: Publishing.Options, n: nat)
    requires n == 0 ==> o.messages == 0
    requires n > 0 ==> CutAt(o, n - 1) < CutAt(o, n) == o.messages
    requires o.messagesPerPacket > 0
    ensures o.messagesPerPacket * n - o.messagesPerPacket < o.messages <= o.messagesPerPacket * n
  {
    var m := o.messagesPerPacket;
    assert n * m == m * n && (n > 0 ==> (n - 1) * m == m * n - m);
  }

  // ---- The receive loop over a whole run. ----

  /** What the handler's receive loop is given in the first `n` steps of a run. */
  ghost function ArrivalsIn(t: Trace, n: nat): seq<Arrival>
    requires n <= |t.steps| < |t.states|
  {
    if n == 0 then []
    else
      ArrivalsIn(t, n - 1) +
      match t.steps[n - 1]
      case StorePacket(_, _) => []
      case SendPacket => []
      case Deliver(datagram) => [Arrival(datagram, RecoverFrom(t.states[n - 1].publisher.history))]
  }

  /** The largest sequence number among the datagrams, 0 if none parses. */
  function LargestIn(arrivals: seq<Arrival>): u32 {
    if arrivals == [] then 0
    else
      var before, last := LargestIn(arrivals[..|arrivals| - 1]), SeqNumOf(arrivals[|arrivals| - 1].bytes);
      if last > before then last else before
  }

  /** The receive loop, given the deliveries of a run one after the other, ends as the handler of that run has. */
  lemma {:induction false} LoopFollowsRun(c: Config, t: Trace, n: nat)
    requires ValidTrace(c, t) && n <= |t.steps|
    ensures OnAll(FRESH_HANDLER, c.limit, ArrivalsIn(t, n)) == t.states[n].handler
    ensures t.states[n].largest == LargestIn(ArrivalsIn(t, n))
  {
    hide OnAll, OnDatagram, RecoverFrom, SeqNumOf, Do, Enabled;
    if n == 0 {
      HandlingProofs.OnAllStarts(FRESH_HANDLER, c.limit);
    } else {
      LoopFollowsRun(c, t, n - 1);
      assert StepAt(c, t, n - 1);
      DoHandles(c, t.states[n - 1], t.steps[n - 1]);
      var before := ArrivalsIn(t, n - 1);
      if t.steps[n - 1].Deliver? {
        var last := Arrival(t.steps[n - 1].datagram, RecoverFrom(t.states[n - 1].publisher.history));
        HandlingProofs.OnAllTakesNext(FRESH_HANDLER, c.limit, before, last);
        assert ArrivalsIn(t, n)[..|before|] == before;
      } else {
        assert ArrivalsIn(t, n) == before;
      }
    }
  }

  /** Only a delivery concerns the handler. */
  lemma DoHandles(c: Config, s: System, step: Step)
    requires Publishing.Accepted(c.options) && Enabled(c, s, step)
    ensures var t := Do(c, s, step);
            if step.Deliver? then
              && s.handler.Running? && !LimitReached(s.handler.h, c.limit)
              && t.handler == OnDatagram(s.handler.h, c.limit, step.datagram, RecoverFrom(s.publisher.history))
              && t.largest == if SeqNumOf(step.datagram) > s.largest then SeqNumOf(step.datagram) else s.largest
            else
              t.handler == s.handler && t.largest == s.largest
  {
    hide OnDatagram, RecoverFrom, SeqNumOf, Publishing.Store, Publishing.SendOrDrop, ValidRun, ExtendAll;
  }

  /** What has been applied is the first `received` published messages, once each and in order; short of the limit
      these are the messages of all packets up to the largest number among the datagrams received. */
  ghost predicate StreamApplied(h: Handler, limit: nat, s: State, arrivals: seq<Arrival>) {
    && h.received <= |s.run.events|
    && h.book == ApplyAll(EMPTY_BOOK, s.run.events[..h.received])
    && h.alerts == AlertsIn(s.run.events, h.received)
    && if LimitReached(h, limit) then h.received == limit
       else && h.expected == LargestIn(arrivals) + 1
            && LargestIn(arrivals) < |s.cuts|
            && h.received == s.cuts[LargestIn(arrivals)]
  }

  /** A receive loop on published traffic never throws and applies the stream. */
  lemma LoopEndToEnd(c: Config, t: Trace, s: System)
    requires Reached(c, t, s)
    ensures var arrivals := ArrivalsIn(t, |t.steps|);
            var r := OnAll(FRESH_HANDLER, c.limit, arrivals);
            r.Running? && StreamApplied(r.h, c.limit, s, arrivals)
  {
    hide ApplyAll, AlertsIn, OnAll, ArrivalsIn, LargestIn, ValidTrace;
    LoopFollowsRun(c, t, |t.steps|);
    EndToEnd(c, t, s);
    ExpectedIsLargestPlusOne(c, t, s);
  }

  /** The arrivals are the deliveries of a run that ends in `s`. */
  ghost predicate Feeds(c: Config, t: Trace, s: System, limit: nat, arrivals: seq<Arrival>) {
    Reached(c, t, s) && c.limit == limit && arrivals == ArrivalsIn(t, |t.steps|)
  }

  /** Only the answer to the one range it is missing matters to the handler. */
  lemma OneAnswerMatters(h: Handler, limit: nat, bytes: Bytes, recover: Recover, other: Recover)
    requires h.buffered == map[]
    requires SeqNumOf(bytes) > h.expected ==>
               recover(h.expected, SeqNumOf(bytes) - 1) == other(h.expected, SeqNumOf(bytes) - 1)
    ensures OnDatagram(h, limit, bytes, recover) == OnDatagram(h, limit, bytes, other)
  {
    hide Process, Drain, ReplayAll, GapEnd, Protocol.ParsePacket, Protocol.DecodeSeqNum;
    if SeqNumOf(bytes) > h.expected {
      HandlingProofs.GapAsked(h, limit, SeqNumOf(bytes), bytes, recover);
      HandlingProofs.GapAsked(h, limit, SeqNumOf(bytes), bytes, other);
    }
  }

  lemma SameAnswerLater(l: Log, m: Log, early: Histories.History, late: Histories.History, startSeq: u32, endSeq: u32)
    requires ValidLog(l) && ValidLog(m) && Extends(l, m) && HistoryIs(early, l) && HistoryIs(late, m)
    requires endSeq <= PacketCount(l) && PacketCount(m) <= U32_MAX
    ensures RecoverFrom(early)(startSeq, endSeq) == RecoverFrom(late)(startSeq, endSeq)
  {
    hide Wire, Histories.RangePackets, CutOk;
    forall k: u32 | startSeq <= k <= endSeq
      ensures (k in early <==> k in late) && (k in early ==> early[k] == late[k])
    {
      if k >= 1 {
        WireKept(l, m, k);
      }
    }
    Histories.RangeDependsOnRange(early, late, startSeq, endSeq);
  }

  /** It does not matter how late in the run the recovery server looks a request up. */
  lemma StoresMeanwhileDoNotMatter(c: Config, trace: Trace, i: nat, j: nat, datagram: Bytes)
    requires ValidTrace(c, trace) && i <= j <= |trace.steps| && PacketCount(LogOf(trace.states[j])) < U32_MAX
    requires Enabled(c, trace.states[i], Deliver(datagram))
    ensures var s, t := trace.states[i], trace.states[j];
            OnDatagram(s.handler.h, c.limit, datagram, RecoverFrom(s.publisher.history)) ==
            OnDatagram(s.handler.h, c.limit, datagram, RecoverFrom(t.publisher.history))
  {
    hide Wire, Synced, OnDatagram, RecoverFrom, HistoryIs, NetworkIs, CutOk, StepAt;
    var s, t := trace.states[i], trace.states[j];
    LogOnlyGrows(c, trace, i, j);
    RunsKeepInvariant(c, trace, i);
    RunsKeepInvariant(c, trace, j);
    var h, seqNum := s.handler.h, SeqNumOf(datagram);
    if seqNum > h.expected {
      var k := WhichPacket(c, s, datagram);
      SameAnswerLater(LogOf(s), LogOf(t), s.publisher.history, t.publisher.history, h.expected, k - 1);
    }
    OneAnswerMatters(h, c.limit, datagram, RecoverFrom(s.publisher.history), RecoverFrom(t.publisher.history));
  }

  /** When the recovery connection may fail: the handler throws exactly when it is missing packets and the request
      for them fails. Then it has applied nothing more, and what it has applied is still a prefix of the
      published messages; else it has done what it would have done with a connection that never fails. */
  lemma FailedRecoveryIsSafe(c: Config, trace: Trace, s: System, datagram: Bytes, recover: Recover)
    requires Reached(c, trace, s) && Enabled(c, s, Deliver(datagram))
    requires forall a, b :: recover(a, b).Err? || recover(a, b) == RecoverFrom(s.publisher.history)(a, b)
    ensures var h, r := s.handler.h, OnDatagram(s.handler.h, c.limit, datagram, recover);
            && r.h.received <= |s.run.events|
            && r.h.book == ApplyAll(EMPTY_BOOK, s.run.events[..r.h.received])
            && r.h.alerts == AlertsIn(s.run.events, r.h.received)
            && (r.Thrown? <==>
                SeqNumOf(datagram) > h.expected && recover(h.expected, SeqNumOf(datagram) - 1).Err?)
            && (r.Thrown? ==> r.h.received == h.received)
            && (r.Running? ==>
                  r == OnDatagram(h, c.limit, datagram, RecoverFrom(s.publisher.history)))
  {
    hide Wire, OnDatagram, RecoverFrom, HistoryIs, NetworkIs, CutOk, ApplyAll, AlertsIn, StepAt, SeqNumOf;
    RunsKeepInvariant(c, trace, |trace.steps|);
    var h := s.handler.h;
    if SeqNumOf(datagram) > h.expected && recover(h.expected, SeqNumOf(datagram) - 1).Err? {
      FailedGap(h, c.limit, datagram, recover);
    } else {
      OneAnswerMatters(h, c.limit, datagram, recover, RecoverFrom(s.publisher.history));
      DeliverKeepsHandler(c, s, datagram);
      assert Do(c, s, Deliver(datagram)).handler == OnDatagram(h, c.limit, datagram, recover);
    }
  }

  lemma FailedGap(h: Handler, limit: nat, bytes: Bytes, recover: Recover)
    requires h.buffered == map[] && !LimitReached(h, limit)
    requires SeqNumOf(bytes) > h.expected && recover(h.expected, SeqNumOf(bytes) - 1).Err?
    ensures var r := OnDatagram(h, limit, bytes, recover);
            && r.Thrown? && r.error == recover(h.expected, SeqNumOf(bytes) - 1).error
            && r.h.book == h.book && r.h.received == h.received && r.h.alerts == h.alerts
  {
    hide Process, Drain, ReplayAll, GapEnd, Protocol.ParsePacket, Protocol.DecodeSeqNum;
    HandlingProofs.GapAsked(h, limit, SeqNumOf(bytes), bytes, recover);
  }

  /** The handler stands one past the largest sequence number it has received, unless the limit has left that
      very packet parked behind its gap. */
  lemma ExpectedIsLargestPlusOne(c: Config, trace: Trace, s: System)
    requires Reached(c, trace, s)
    ensures s.handler.Running?
    ensures var h := s.handler.h;
            && (h.buffered == map[] ==> h.expected == s.largest + 1)
            && (h.buffered != map[] ==>
                  LimitReached(h, c.limit) && h.buffered.Keys == {s.largest} && h.expected <= s.largest)
  {
    hide PublisherOk, ValidTrace, Synced;
    RunsKeepInvariant(c, trace, |trace.steps|);
    OneParked(s.handler.h);
  }

  lemma OneParked(h: Handler)
    requires |h.buffered| <= 1
    ensures h.buffered.Keys == {} <==> h.buffered == map[]
    ensures h.buffered != map[] ==> h.buffered.Keys == {FirstKey(h.buffered.Keys)}
  {
    if h.buffered.Keys != {} {
      var k := FirstKey(h.buffered.Keys);
      assert |h.buffered.Keys - {k}| == 0;
    }
  }

  /** Confluence: whatever was lost, duplicated or reordered, two runs that published the same packets up to the
      largest number each received end with the same book, the same alerts and the same position. */
  lemma Confluence(c: Config, d: Config, trace: Trace, other: Trace, s: System, t: System)
    requires Reached(c, trace, s) && Reached(d, other, t) && c.limit == 0 && d.limit == 0
    requires s.largest == t.largest
    requires s.largest < |s.cuts| && t.largest < |t.cuts| && s.cuts[s.largest] == t.cuts[t.largest]
    requires s.cuts[s.largest] <= |s.run.events| && t.cuts[t.largest] <= |t.run.events|
    requires s.run.events[..s.cuts[s.largest]] == t.run.events[..t.cuts[t.largest]]
    ensures s.handler.Running? && t.handler.Running?
    ensures s.handler.h.book == t.handler.h.book
    ensures s.handler.h.alerts == t.handler.h.alerts
    ensures s.handler.h.expected == t.handler.h.expected
    ensures s.handler.h.received == t.handler.h.received
    ensures s.handler.h.buffered == t.handler.h.buffered
  {
    hide ApplyAll, AlertsIn, ValidTrace;
    EndToEnd(c, trace, s);
    EndToEnd(d, other, t);
    ExpectedIsLargestPlusOne(c, trace, s);
    ExpectedIsLargestPlusOne(d, other, t);
    var n := s.handler.h.received;
    AlertsKept(s.run.events[..n], s.run.events, n);
    AlertsKept(t.run.events[..n], t.run.events, n);
  }

  /** Conservation: every processed packet is counted under one source and is one sequence number; every
      out-of-order packet asks for one replay and is either drained or still parked; the replays and what the
      limit cut off the last of them add up to the gaps. */
  lemma CountersBalance(c: Config, trace: Trace, s: System)
    requires Reached(c, trace, s)
    ensures s.handler.Running?
    ensures var h := s.handler.h;
            && h.stats.processed == h.stats.live + h.stats.replay + h.stats.drain
            && h.stats.processed == h.expected - 1
            && h.stats.replayRequests == h.stats.outOfOrder
            && h.stats.outOfOrder == h.stats.drain + |h.buffered|
            && (h.buffered != map[] ==>
                  LimitReached(h, c.limit) && h.buffered.Keys == {s.largest} && h.expected <= s.largest)
            && s.gaps == h.stats.replay + if h.buffered == map[] then 0 else s.largest - h.expected
  {
    hide ApplyAll, AlertsIn, PublisherOk, ValidTrace, Tracks, Positioned;
    RunsKeepInvariant(c, trace, |trace.steps|);
    OneParked(s.handler.h);
  }

  lemma DivideNext(n: nat, d: nat)
    requires n > 0 && d > 0
    ensures n / d == (n - 1) / d + if n % d == 0 then 1 else 0
  {
    var q, r := n / d, n % d;
    assert n == d * q + r;
    if r == 0 {
      assert n - 1 == d * (q - 1) + (d - 1);
      QuotientIs(n - 1, d, q - 1, d - 1);
    } else {
      QuotientIs(n - 1, d, q, r - 1);
    }
  }

  lemma QuotientIs(n: nat, d: nat, q: int, r: nat)
    requires r < d && n == d * q + r
    ensures n / d == q
  {
    var e := n / d - q;
    assert d * e == d * (n / d) - d * q;
    Multiples(d, e);
  }

  lemma Multiples(d: nat, e: int)
    ensures e >= 1 ==> d * e >= d
    ensures e <= -1 ==> d * e + d <= 0
  {
    if e <= -1 {
      assert d * e + d == d * (e + 1);
    }
  }

  lemma {:induction false} DroppedIsQuotient(o: Publishing.Options, n: nat)
    ensures Dropped(o, n) == if o.skipEvery == 0 then 0 else n / o.skipEvery
  {
    if n > 0 {
      DroppedIsQuotient(o, n - 1);
      if o.skipEvery != 0 {
        DivideNext(n, o.skipEvery);
      }
    }
  }

  /** The publisher's summary: packets sent and dropped add up to the sequence numbers used, one in every
      `skipEvery` of them dropped; the messages counted as sent are those in the packets sent and likewise for the
      dropped, and together they are the messages emitted. */
  lemma PublisherCountsBalance(c: Config, trace: Trace, s: System)
    requires Reached(c, trace, s)
    ensures s.publisher.sentPackets + s.publisher.droppedPackets == s.publisher.sequence - 1
    ensures s.publisher.droppedPackets ==
            if c.options.skipEvery == 0 then 0 else (s.publisher.sequence - 1) / c.options.skipEvery
    ensures s.publisher.sentMessages + s.publisher.droppedMessages == s.publisher.emitted <= c.options.messages
    ensures s.publisher.sequence <= |s.cuts|
    ensures s.publisher.sentMessages == SentMessages(c.options, s.cuts, s.publisher.sequence - 1)
    ensures s.publisher.droppedMessages == DroppedMessages(c.options, s.cuts, s.publisher.sequence - 1)
  {
    hide HandlerOk, PacketsOk, ValidTrace, Dropped, SentMessages, DroppedMessages, FullPackets;
    RunsKeepInvariant(c, trace, |trace.steps|);
    DroppedIsQuotient(c.options, Done(s));
    if 0 < Done(s) < |s.tscs| {
      assert CutOk(LogOf(s), Done(s) + 1);
    }
    assert Done(s) > 0 ==> CutOk(LogOf(s), Done(s));
  }

  // ---- The handler's book replicates the generator. ----

  /** After `n` messages the handler's live orders are the generator's pool after `n` calls of `next`. */
  lemma BookReplicatesGenerator(c: Config, trace: Trace, s: System)
    requires Reached(c, trace, s)
    ensures s.handler.Running? && s.handler.h.received <= |s.run.draws|
    ensures s.handler.h.book.live == AsLive(s.run.pools[s.handler.h.received].orders)
  {
    hide ApplyAll, AlertsIn, ValidTrace, LiveAll;
    EndToEnd(c, trace, s);
    EventsWithinMessages(c, trace, s);
    var n := s.handler.h.received;
    ReplicaAgrees(s.run, n);
    ApplyAllLive(EMPTY_BOOK, s.run.events[..n]);
  }

  lemma EventsWithinMessages(c: Config, trace: Trace, s: System)
    requires Reached(c, trace, s)
    ensures |s.run.draws| == |s.run.events| <= U64_MAX
  {
    hide HandlerOk, PacketsOk, CountersOk, ValidTrace;
    RunsKeepInvariant(c, trace, |trace.steps|);
  }

  /** The level sums of every pool up to the `n`-th call fit in 32 bits. */
  ghost predicate FittingPools(r: Run, n: nat)
    requires n < |r.pools|
  {
    forall k :: 0 <= k <= n ==> FittingPool(r, k)
  }

  ghost predicate FittingPool(r: Run, k: nat)
    requires k < |r.pools|
  {
    Fits(AsLive(r.pools[k].orders))
  }

  predicate PoolsWithin(r: Run, n: nat, most: nat)
    requires n < |r.pools|
  {
    forall k :: 0 <= k <= n ==> |r.pools[k].orders| <= most
  }

  /** Pools of at most 17,179,869 orders fit. */
  lemma SmallPoolsFit(r: Run, n: nat)
    requires ValidRun(r) && n <= |r.draws| <= U64_MAX && PoolsWithin(r, n, SAFE_POOL)
    ensures FittingPools(r, n)
  {
    hide Fits, AsLive, CallAt;
    forall k | 0 <= k <= n
      ensures FittingPool(r, k)
    {
      ReplicaAgrees(r, k);
      PoolFits(r.pools[k], AddsBefore(r, k));
    }
  }

  /** Every call adds 250 to one price. */
  const ADD_MOST := Draw(0, Protocol.Buy, 10000, 10001, 250, 0)

  lemma AddMost(p: Pool, issued: nat)
    requires PoolOk(p, issued) && issued < U64_MAX
    ensures var live := AsLive(Next(p, ADD_MOST).0.orders);
            Resting(live, Protocol.Buy, 10000) == Resting(AsLive(p.orders), Protocol.Buy, 10000) + 250
  {
    hide AsLive, Resting;
    AddMirrored(p, ADD_MOST, issued);
    AsLiveMirrors(p.orders);
    var id := p.nextOrderId;
    assert id !in AsLive(p.orders) by {
      assert !HasId(p.orders, id);
    }
    var live := AsLive(Next(p, ADD_MOST).0.orders);
    RestingWithout(live, id, Protocol.Buy, 10000);
    assert live - {id} == AsLive(p.orders);
  }

  /** For every `n` a run of `n` calls whose pool holds `n` orders of 250 at one price. */
  lemma {:induction false} RunOfAdds(n: nat) returns (r: Run)
    requires n <= U64_MAX
    ensures ValidRun(r) && |r.draws| == n && PoolsWithin(r, n, n)
    ensures |CurrentPool(r).orders| == n && Resting(AsLive(CurrentPool(r).orders), Protocol.Buy, 10000) == 250 * n
  {
    hide AsLive, Resting, CallAt;
    if n == 0 {
      r := START;
      EmptyRests();
    } else {
      var shorter := RunOfAdds(n - 1);
      r := Extend(shorter, ADD_MOST);
      ReplicaAgrees(shorter, n - 1);
      AddMost(CurrentPool(shorter), AddsBefore(shorter, n - 1));
      assert forall k :: 0 <= k < n ==> r.pools[k] == shorter.pools[k];
    }
  }

  lemma EmptyRests()
    ensures Resting(AsLive([]), Protocol.Buy, 10000) == 0
  {
  }

  /** All runs whose pools have at most `most` orders fit if and only if `most` is at most 17,179,869. */
  lemma SmallPoolsFitExactly(most: nat)
    ensures (forall r: Run, n: nat ::
              ValidRun(r) && n <= |r.draws| <= U64_MAX && PoolsWithin(r, n, most) ==> FittingPools(r, n))
       <==> most <= SAFE_POOL
  {
    hide AsLive, Resting, CallAt;
    if most <= SAFE_POOL {
      forall r: Run, n: nat | ValidRun(r) && n <= |r.draws| <= U64_MAX && PoolsWithin(r, n, most)
        ensures FittingPools(r, n)
      {
        SmallPoolsFit(r, n);
      }
    } else {
      var n := SAFE_POOL + 1;
      var r := RunOfAdds(n);
      assert PoolsWithin(r, n, most);
      assert Resting(AsLive(r.pools[n].orders), Protocol.Buy, 10000) > U32_MAX;
      assert !FittingPool(r, n);
    }
  }

  lemma ReplicaSound(r: Run, n: nat)
    requires ValidRun(r) && n <= |r.draws| <= U64_MAX && FittingPools(r, n)
    ensures var b := ApplyAll(EMPTY_BOOK, r.events[..n]);
            && SoundKeys(b) && b.live == AsLive(r.pools[n].orders)
            && Fits(b.live)
            && BboOf(b) == ScanBbo(b.live)
  {
    hide ApplyAll, LiveAll, AsLive, SoundKeys, Fits, BboOf, ScanBbo, CallAt;
    forall k | 0 <= k <= n
      ensures Fits(LiveAll(map[], r.events[..k]))
    {
      assert FittingPool(r, k);
      ReplicaAgrees(r, k);
    }
    forall i | 0 <= i < n
      ensures PositiveAdd(r.events[i])
    {
      EventFacts(r, i);
    }
    PositiveRunsAreExact(r.events, n);
    ReplicaAgrees(r, n);
  }

  /** The handler's view of the market is the generator's: its levels are the sums and prices of the generator's
      pool, its best bid and offer are what a scan of that pool finds, and the market it shows never crosses. */
  lemma MarketViewIsGenerators(c: Config, trace: Trace, s: System)
    requires Reached(c, trace, s)
    requires s.handler.h.received < |s.run.pools| && FittingPools(s.run, s.handler.h.received)
    ensures var h := s.handler.h;
            var live := AsLive(s.run.pools[h.received].orders);
            && SoundKeys(h.book) && h.book.live == live
            && Fits(live)
            && BboOf(h.book) == ScanBbo(live)
            && (BboOf(h.book).bestBid.Some? ==> BboOf(h.book).bestBid.value.price <= 10000)
            && (BboOf(h.book).bestAsk.Some? ==> BboOf(h.book).bestAsk.value.price >= 10001)
  {
    hide ApplyAll, AlertsIn, ValidTrace, SoundKeys, Fits, BboOf, ScanBbo, AsLive;
    EndToEnd(c, trace, s);
    EventsWithinMessages(c, trace, s);
    var n := s.handler.h.received;
    ReplicaSound(s.run, n);
    ReplicaAgrees(s.run, n);
    MarketNeverCrosses(s.run.pools[n], AddsBefore(s.run, n));
  }

  /** The changes of best bid and offer that scanning the generator's pool shows over its first `n` calls. */
  ghost function PoolAlerts(r: Run, n: nat): seq<ApplyResult>
    requires ValidRun(r) && n <= |r.draws| && FittingPools(r, n)
  {
    if n == 0 then []
    else
      assert FittingPool(r, n) && FittingPool(r, n - 1);
      var result := ApplyResult(ScanBbo(AsLive(r.pools[n - 1].orders)), ScanBbo(AsLive(r.pools[n].orders)));
      PoolAlerts(r, n - 1) + if result.BboChanged() then [result] else []
  }

  lemma PoolAlertsGrow(r: Run, n: nat)
    requires ValidRun(r) && 0 < n <= |r.draws| && FittingPools(r, n)
    ensures FittingPools(r, n - 1) && FittingPool(r, n - 1) && FittingPool(r, n)
    ensures var last := ApplyResult(ScanBbo(AsLive(r.pools[n - 1].orders)), ScanBbo(AsLive(r.pools[n].orders)));
            PoolAlerts(r, n) == PoolAlerts(r, n - 1) + if last.BboChanged() then [last] else []
  {
    hide AsLive, ScanBbo, CallAt;
    assert FittingPool(r, n - 1) && FittingPool(r, n);
  }

  lemma {:induction false} AlertsArePoolAlerts(r: Run, n: nat)
    requires ValidRun(r) && n <= |r.draws| <= U64_MAX && FittingPools(r, n)
    ensures AlertsIn(r.events, n) == PoolAlerts(r, n)
  {
    if n > 0 {
      hide ApplyAll, AsLive, Fits, BboOf, ScanBbo, ValidRun, FittingPools, PoolAlerts;
      PoolAlertsGrow(r, n);
      AlertsArePoolAlerts(r, n - 1);
      ReplicaBbo(r, n);
      ReplicaBbo(r, n - 1);
    } else {
      hide FittingPools, ValidRun, FittingPool;
    }
  }

  lemma ReplicaBbo(r: Run, n: nat)
    requires ValidRun(r) && n <= |r.draws| <= U64_MAX && FittingPools(r, n)
    ensures Fits(AsLive(r.pools[n].orders))
    ensures BboOf(ApplyAll(EMPTY_BOOK, r.events[..n])) == ScanBbo(AsLive(r.pools[n].orders))
  {
    hide ApplyAll, AsLive, SoundKeys, Fits, BboOf, ScanBbo, CallAt;
    ReplicaSound(r, n);
  }

  /** While the pools fit, the alerts the handler raised are exactly the generator's own changes of best bid and
      offer, in order. */
  lemma AlertsFollowGenerator(c: Config, trace: Trace, s: System)
    requires Reached(c, trace, s)
    requires s.handler.h.received < |s.run.pools| && FittingPools(s.run, s.handler.h.received)
    ensures s.handler.h.received <= |s.run.draws|
    ensures s.handler.h.alerts == PoolAlerts(s.run, s.handler.h.received)
  {
    hide ApplyAll, AlertsIn, PoolAlerts, ValidTrace;
    EndToEnd(c, trace, s);
    EventsWithinMessages(c, trace, s);
    AlertsArePoolAlerts(s.run, s.handler.h.received);
  }
}
