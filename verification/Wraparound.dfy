/** Where the guarantee ends: the run of 2^32 - 1 packets, after which sequence numbers wrap. */
module Wraparound {
  import opened Prelude
  import Protocol
  import Histories
  import Recovery
  import opened Handling
  import opened HandlingProofs
  import HandlingExits
  import opened PublishedLog
  import opened Pipeline
  import opened Runs
  import Publishing

  lemma {:induction false} RangeMissesOne(h: Histories.History, start: nat, end: int)
    requires start <= end <= U32_MAX && start !in h
    ensures |Histories.RangePackets(h, start, end)| <= end - start
    decreases end
  {
    if start < end {
      RangeMissesOne(h, start, end - 1);
    }
  }

  /** A handler that has applied all `n` published packets discards every late duplicate exactly when `n` is
      below 2^32 - 1: at that number the expected sequence wraps to 0, no duplicate is stale any more, and
      recovery of the never-published packet 0 makes the handler throw. */
  lemma DuplicatesDiscardedExactly(h: Handler, limit: nat, l: Log, history: Histories.History, k: u32)
    requires ValidLog(l) && HistoryIs(history, l) && 1 <= k <= PacketCount(l) <= U32_MAX
    requires h.expected == (PacketCount(l) + 1) % 0x1_0000_0000 && h.buffered == map[] && !LimitReached(h, limit)
    ensures OnDatagram(h, limit, Wire(l, k), RecoverFrom(history)) == Running(h) <==> PacketCount(l) < U32_MAX
    ensures PacketCount(l) == U32_MAX ==>
              OnDatagram(h, limit, Wire(l, k), RecoverFrom(history)).Thrown?
  {
    hide Wire, OnDatagram, HistoryIs, ValidLog;
    if PacketCount(l) == U32_MAX {
      DuplicateThrows(h, limit, l, history, k);
    } else {
      DuplicateDiscarded(h, limit, l, RecoverFrom(history), k);
    }
  }

  lemma DuplicateDiscarded(h: Handler, limit: nat, l: Log, recover: Recover, k: u32)
    requires ValidLog(l) && 1 <= k <= PacketCount(l) && k < h.expected
    ensures OnDatagram(h, limit, Wire(l, k), recover) == Running(h)
  {
    hide Wire, Protocol.ParsePacket, Protocol.DecodeSeqNum, CutOk, RequestReplay, Drain, Process;
    WireReads(l, k);
  }

  lemma DuplicateThrows(h: Handler, limit: nat, l: Log, history: Histories.History, k: u32)
    requires ValidLog(l) && HistoryIs(history, l) && 1 <= k <= PacketCount(l) <= U32_MAX
    requires h.expected == 0 && h.buffered == map[] && !LimitReached(h, limit)
    ensures OnDatagram(h, limit, Wire(l, k), RecoverFrom(history)).Thrown?
  {
    hide Wire, CutOk, OnDatagram, RequestReplay, HistoryIs, SequencedAs, GapEnd;
    WireReads(l, k);
    GapAsked(h, limit, k, Wire(l, k), RecoverFrom(history));
    ReplayFromZeroThrows(Buffer(h, k, Wire(l, k)), limit, l, history, k - 1);
  }

  lemma ReplayFromZeroThrows(h: Handler, limit: nat, l: Log, history: Histories.History, endSeq: u32)
    requires ValidLog(l) && HistoryIs(history, l) && !LimitReached(h, limit)
    ensures RequestReplay(h, limit, 0, endSeq, RecoverFrom(history)).Thrown?
  {
    hide Wire, Recovery.Exchange, Histories.RangePackets, CutOk, ReplayAll, Drain;
    assert 0 !in history;
    RangeMissesOne(history, 0, endSeq);
    ExchangeShort(history, l, endSeq);
  }

  lemma ExchangeShort(history: Histories.History, l: Log, endSeq: u32)
    requires ValidLog(l) && HistoryIs(history, l)
    requires |Histories.RangePackets(history, 0, endSeq)| <= endSeq
    ensures Recovery.Exchange(history, 0, endSeq) == Ok(Histories.RangePackets(history, 0, endSeq))
  {
    hide Wire, Recovery.Exchange, Histories.RangePackets, CutOk;
    var packets := Histories.RangePackets(history, 0, endSeq);
    Histories.RangeIsExact(history, 0, endSeq);
    forall i | 0 <= i < |packets|
      ensures Recovery.Replayable(packets[i])
    {
      var k := Histories.RangeKeys(history, 0, endSeq)[i];
      assert k in history && packets[i] == history[k];
      assert packets[i] == Wire(l, k);
    }
    Recovery.ExchangeExactly(history, 0, endSeq);
  }

  // ---- A run that gets there. ----

  /** One message a packet, as many packets as there are sequence numbers, nothing dropped, no message limit. */
  const LONG_RUN := Config(Publishing.Options(U32_MAX, 1, 0), 0)

  /** `n` packets have been stored, sent and applied. */
  ghost predicate CaughtUp(s: State, n: nat) {
    && Published(LONG_RUN, s, n)
    && |s.run.events| == n
    && s.handler.Running?
    && s.handler.h.expected == (n + 1) % 0x1_0000_0000
    && s.handler.h.buffered == map[]
  }

  lemma WireAcceptable(l: Log, k: u32, received: nat, limit: nat)
    requires ValidLog(l) && 1 <= k <= PacketCount(l)
    ensures HandlingExits.Acceptable(Wire(l, k), k, received, limit)
  {
    hide Wire, Protocol.ParsePacket, Protocol.MessageAt, Protocol.DecodeMsgCount, Protocol.DecodeSeqNum;
    WireReads(l, k);
  }

  lemma LongRunAccepted()
    ensures Publishing.Accepted(LONG_RUN.options)
  {
    Publishing.BufferHolds42(0);
  }

  /** Deliver it. */
  lemma DeliverOne(s: System, n: nat) returns (t: System)
    requires Publishing.Accepted(LONG_RUN.options) && n < U32_MAX
    requires PublisherOk(LONG_RUN, s) && s.publisher.stored.None?
    requires PacketCount(LogOf(s)) == n + 1
    requires s.handler.Running? && s.handler.h.expected == n + 1 && s.handler.h.buffered == map[]
    requires Wire(LogOf(s), n + 1) in s.publisher.network
    ensures Enabled(LONG_RUN, s, Deliver(Wire(LogOf(s), n + 1)))
    ensures t == Do(LONG_RUN, s, Deliver(Wire(LogOf(s), n + 1)))
    ensures t.publisher == s.publisher && LogOf(t) == LogOf(s)
    ensures t.handler.Running? && t.handler.h.buffered == map[]
    ensures t.handler.h.expected == (n + 2) % 0x1_0000_0000
  {
    hide Wire, HistoryIs, NetworkIs, CutOk, PacketsOk, CountersOk, OnDatagram, Recovery.Exchange;
    var h, bytes := s.handler.h, Wire(LogOf(s), n + 1);
    t := Do(LONG_RUN, s, Deliver(bytes));
    ExpectedApplied(h, LogOf(s), RecoverFrom(s.publisher.history));
  }

  lemma ExpectedApplied(h: Handler, l: Log, recover: Recover)
    requires ValidLog(l) && 1 <= h.expected <= PacketCount(l) && h.buffered == map[]
    ensures var r := OnDatagram(h, 0, Wire(l, h.expected), recover);
            r.Running? && r.h.expected == Succ32(h.expected) && r.h.buffered == map[]
  {
    hide Wire, Protocol.ParsePacket, Protocol.DecodeSeqNum, HandlingExits.Acceptable, Process, CutOk;
    var bytes := Wire(l, h.expected);
    WireReads(l, h.expected);
    WireAcceptable(l, h.expected, h.received, 0);
    HandlingExits.ProcessRunsExactly(h, 0, bytes, FromLive);
    var after := Process(h, 0, bytes, FromLive).h;
    assert Drain(after, 0) == Running(after);
  }

  lemma OneMore(t: Trace, n: nat) returns (u: Trace)
    requires ValidTrace(LONG_RUN, t) && CaughtUp(LastOf(t), n) && n < U32_MAX
    ensures ValidTrace(LONG_RUN, u) && CaughtUp(LastOf(u), n + 1)
  {
    hide Wire, HistoryIs, NetworkIs, CutOk, PublisherOk, Do, Enabled, StepAt;
    u := PublishOne(LONG_RUN, t, n);
    var s := LastOf(u);
    OneMessageEach(s, n + 1);
    SentIsThere(LONG_RUN, s, n + 1, n + 1);
    var next := DeliverOne(s, n);
    u := TraceGrows(LONG_RUN, u, Deliver(Wire(LogOf(s), n + 1)));
    SamePublisherOk(LONG_RUN, s, next);
  }

  lemma OneMessageEach(s: State, n: nat)
    requires Published(LONG_RUN, s, n) && n <= U32_MAX
    ensures |s.run.events| == n && ValidLog(LogOf(s))
  {
    hide PacketsOk, CountersOk;
    assert s.cuts[n] == CutAt(LONG_RUN.options, n);
  }

  /** For every `n` up to the last sequence number there is a run that has published and applied `n` packets. */
  lemma {:induction false} RunTo(n: nat) returns (t: Trace)
    requires n <= U32_MAX
    ensures ValidTrace(LONG_RUN, t) && CaughtUp(LastOf(t), n)
  {
    hide Published, StepAt;
    if n == 0 {
      LongRunAccepted();
      StartsUnpublished(LONG_RUN);
      OneMessageEach(INITIAL, 0);
      t := Trace([], [INITIAL]);
    } else {
      t := RunTo(n - 1);
      t := OneMore(t, n - 1);
    }
  }

  /** A run that publishes 2^32 - 1 packets and in which the handler throws. */
  lemma HandlerCanThrow() returns (t: Trace)
    ensures ValidTrace(LONG_RUN, t)
    ensures PacketCount(LogOf(LastOf(t))) == U32_MAX && LastOf(t).handler.Thrown?
  {
    hide Wire, HistoryIs, NetworkIs, CutOk, OnDatagram, StepAt;
    t := RunTo(U32_MAX);
    var s := LastOf(t);
    var first := Wire(LogOf(s), 1);
    DuplicatesDiscardedExactly(s.handler.h, 0, LogOf(s), s.publisher.history, 1);
    SentIsThere(LONG_RUN, s, U32_MAX, 1);
    assert Enabled(LONG_RUN, s, Deliver(first));
    t := TraceGrows(LONG_RUN, t, Deliver(first));
  }

  /** Every run that publishes at most `n` packets keeps the handler running if and only if `n` is below
      2^32 - 1. */
  lemma RunsSurviveExactly(n: nat)
    ensures (forall c: Config, t: Trace :: ValidTrace(c, t) && PacketCount(LogOf(LastOf(t))) <= n ==>
                                             LastOf(t).handler.Running?)
       <==> n < U32_MAX
  {
    hide StepAt;
    if n < U32_MAX {
      forall c: Config, t: Trace | ValidTrace(c, t) && PacketCount(LogOf(LastOf(t))) <= n
        ensures LastOf(t).handler.Running?
      {
        SurvivesBelowEnd(c, t);
      }
    } else {
      var t := HandlerCanThrow();
      assert !LastOf(t).handler.Running?;
    }
  }

  lemma SurvivesBelowEnd(c: Config, t: Trace)
    requires ValidTrace(c, t) && PacketCount(LogOf(LastOf(t))) < U32_MAX
    ensures LastOf(t).handler.Running?
  {
    hide PublisherOk, Synced, AtLoopHead;
    RunsKeepInvariant(c, t, |t.steps|);
  }
}
