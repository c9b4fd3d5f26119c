/** Runs that exist: for any accepted options, publishing as much as there is, and losing as much as there is. */
module Runs {
  import opened Prelude
  import Protocol
  import Histories
  import Generators
  import opened Publishing
  import opened Handling
  import opened HandlingProofs
  import opened PublishedLog
  import opened Pipeline

  function LastOf(t: Trace): System
    requires |t.states| > 0
  {
    t.states[|t.states| - 1]
  }

  lemma TraceGrows(c: Config, t: Trace, step: Step) returns (u: Trace)
    requires ValidTrace(c, t) && Enabled(c, LastOf(t), step)
    ensures ValidTrace(c, u) && LastOf(u) == Do(c, LastOf(t), step)
  {
    hide Enabled, Do;
    u := Trace(t.steps + [step], t.states + [Do(c, LastOf(t), step)]);
    forall i | 0 <= i < |u.steps|
      ensures StepAt(c, u, i)
    {
      if i < |t.steps| {
        assert StepAt(c, t, i);
      }
    }
  }

  lemma DeliveryKeepsLog(c: Config, s: System, datagram: Bytes)
    requires Publishing.Accepted(c.options) && Enabled(c, s, Deliver(datagram))
    ensures var t := Do(c, s, Deliver(datagram));
            && LogOf(t) == LogOf(s)
            && t.handler == OnDatagram(s.handler.h, c.limit, datagram, RecoverFrom(s.publisher.history))
  {
    hide OnDatagram, RecoverFrom, Generators.ValidRun;
  }

  // ---- Publishing. ----

  /** Every call adds an order. */
  const ADD_ORDER := Generators.Draw(0, Protocol.Buy, 9950, 10001, 10, 0)

  function Adds(count: nat): seq<Generators.Draw> {
    if count == 0 then [] else [ADD_ORDER] + Adds(count - 1)
  }

  lemma {:induction false} AddsDrawable(p: Generators.Pool, count: nat)
    ensures |Adds(count)| == count && Generators.Drawable(p, Adds(count))
    decreases count
  {
    if count > 0 {
      AddsDrawable(Generators.Next(p, ADD_ORDER).0, count - 1);
      assert Adds(count)[0] == ADD_ORDER && Adds(count)[1..] == Adds(count - 1);
    }
  }

  /** `n` packets have been stored, and sent or dropped. */
  ghost predicate Published(c: Config, s: State, n: nat) {
    PublisherOk(c, s) && s.publisher.stored.None? && PacketCount(LogOf(s)) == n
  }

  /** There is an `n`-th packet to publish. */
  predicate HasPacket(o: Options, n: nat) {
    n > 0 ==> CutAt(o, n - 1) < o.messages
  }

  lemma HasEarlierPacket(o: Options, n: nat)
    requires n > 0 && HasPacket(o, n)
    ensures HasPacket(o, n - 1)
  {
    if n > 1 {
      assert (n - 1) * o.messagesPerPacket == (n - 2) * o.messagesPerPacket + o.messagesPerPacket;
    }
  }

  lemma SentIsThere(c: Config, s: State, n: nat, k: u32)
    requires Published(c, s, n) && 1 <= k <= n && Kept(c.options, k)
    ensures ValidLog(LogOf(s)) && Wire(LogOf(s), k) in s.publisher.network
  {
    hide Wire, HistoryIs, FullPackets, CountersOk;
    assert SentUpTo(Wire(LogOf(s), k), c.options, LogOf(s), Done(s));
  }

  lemma NextDraws(c: Config, s: System, n: nat) returns (draws: seq<Generators.Draw>)
    requires Published(c, s, n) && HasPacket(c.options, n + 1)
    ensures Enabled(c, s, StorePacket(draws, 0))
  {
    hide Wire, PacketsOk, CountersOk, CutAt;
    assert s.cuts[n] == CutAt(c.options, n);
    draws := Adds(BatchSize(c.options, s.publisher.emitted));
    AddsDrawable(s.publisher.pool, BatchSize(c.options, s.publisher.emitted));
  }

  lemma StoreNext(c: Config, s: System, n: nat, draws: seq<Generators.Draw>) returns (t: System)
    requires Accepted(c.options) && Published(c, s, n) && n < U32_MAX
    requires Enabled(c, s, StorePacket(draws, 0))
    ensures t == Do(c, s, StorePacket(draws, 0))
    ensures PublisherOk(c, t) && t.publisher.stored.Some? && t.handler == s.handler
    ensures PacketCount(LogOf(t)) == n + 1
  {
    hide Wire, PacketsOk, CountersOk, Enabled;
    t := Do(c, s, StorePacket(draws, 0));
    StoreKeepsPublisher(c, s, draws, 0);
    StoreGrowsLog(c, s, draws, 0);
  }

  lemma SendNext(c: Config, s: System) returns (t: System)
    requires Accepted(c.options) && PublisherOk(c, s) && s.publisher.stored.Some?
    ensures Enabled(c, s, SendPacket) && t == Do(c, s, SendPacket)
    ensures PublisherOk(c, t) && t.publisher.stored.None?
    ensures LogOf(t) == LogOf(s) && t.handler == s.handler
  {
    hide Wire, PacketsOk, CountersOk, LogOk;
    t := Do(c, s, SendPacket);
    SendKeepsPublisher(c, s);
  }

  lemma PublishOne(c: Config, t: Trace, n: nat) returns (u: Trace)
    requires ValidTrace(c, t) && Published(c, LastOf(t), n) && HasPacket(c.options, n + 1) && n < U32_MAX
    ensures ValidTrace(c, u) && Published(c, LastOf(u), n + 1)
    ensures LastOf(u).handler == LastOf(t).handler
  {
    hide PublisherOk, Do, Enabled, StepAt, HasPacket;
    var s := LastOf(t);
    var draws := NextDraws(c, s, n);
    var stored := StoreNext(c, s, n, draws);
    u := TraceGrows(c, t, StorePacket(draws, 0));
    var sent := SendNext(c, stored);
    u := TraceGrows(c, u, SendPacket);
  }

  lemma StartsUnpublished(c: Config)
    requires Accepted(c.options)
    ensures ValidTrace(c, Trace([], [INITIAL])) && Published(c, INITIAL, 0)
  {
    hide PublisherOk, HandlerOk;
    InitialInvariant(c);
  }

  /** The publisher never gets stuck: as long as there are messages and sequence numbers it can go on, whatever the
      options, and nothing need be delivered meanwhile. */
  lemma {:induction false} PublishTo(c: Config, n: nat) returns (t: Trace)
    requires Accepted(c.options) && n <= U32_MAX && HasPacket(c.options, n)
    ensures ValidTrace(c, t) && Published(c, LastOf(t), n) && LastOf(t).handler == Running(FRESH_HANDLER)
  {
    hide Published, StepAt;
    if n == 0 {
      StartsUnpublished(c);
      t := Trace([], [INITIAL]);
    } else {
      HasEarlierPacket(c.options, n);
      t := PublishTo(c, n - 1);
      t := PublishOne(c, t, n - 1);
    }
  }

  // ---- Losing. ----

  lemma LastOneApplied(limit: nat, l: Log, history: Histories.History, n: u32)
    requires 1 <= n == PacketCount(l) && AtLoopHead(FRESH_HANDLER, limit)
    requires Synced(FRESH_HANDLER, limit, l) && HistoryIs(history, l)
    ensures var r := OnDatagram(FRESH_HANDLER, limit, Wire(l, n), RecoverFrom(history));
            && r.Running?
            && r.h.received == (if limit == 0 || |l.events| < limit then |l.events| else limit)
            && (limit == 0 || |l.events| < limit ==> r.h.expected == n + 1 && r.h.stats.replay == n - 1)
  {
    hide Wire, HistoryIs, OnDatagram, RecoverFrom, Tracks, KeysMatch, Balanced;
    DeliverPublished(FRESH_HANDLER, limit, l, history, n);
    var h := OnDatagram(FRESH_HANDLER, limit, Wire(l, n), RecoverFrom(history)).h;
    assert l.cuts[n] == |l.events|;
    assert h.expected >= 2 ==> CutOk(l, h.expected - 1);
    assert !LimitReached(h, limit) ==> h.buffered.Keys == {};
  }

  /** Whatever the options and the limit, the network may lose every packet but one that is sent last, and the
      handler still applies all messages up to it, or up to the limit. */
  lemma LossRecovered(c: Config, n: nat) returns (t: Trace)
    requires Accepted(c.options) && 1 <= n < U32_MAX && HasPacket(c.options, n) && Kept(c.options, n)
    ensures ValidTrace(c, t) && LastOf(t).handler.Running?
    ensures var h, all := LastOf(t).handler.h, CutAt(c.options, n);
            && h.received == (if c.limit == 0 || all < c.limit then all else c.limit)
            && (c.limit == 0 || all < c.limit ==> h.expected == n + 1 && h.stats.replay == n - 1)
  {
    hide Wire, HistoryIs, NetworkIs, OnDatagram, RecoverFrom, StepAt, CountersOk, Tracks, AtLoopHead, Do, Synced,
      Protocol.ParsePacket, CutAt, HasPacket, Kept;
    t := PublishTo(c, n);
    var s := LastOf(t);
    RunsKeepInvariant(c, t, |t.steps|);
    assert s.cuts[n] == CutAt(c.options, n) == |s.run.events|;
    LastOneApplied(c.limit, LogOf(s), s.publisher.history, n);
    SentIsThere(c, s, n, n);
    var step := Deliver(Wire(LogOf(s), n));
    assert Enabled(c, s, step);
    DeliveryKeepsLog(c, s, Wire(LogOf(s), n));
    t := TraceGrows(c, t, step);
  }
}
