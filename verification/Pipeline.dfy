/** The publisher, a network that loses, duplicates and reorders, the recovery service and the handler, together. */
module Pipeline {
  import opened Prelude
  import opened Protocol
  import Books
  import opened Histories
  import Recovery
  import opened Generators
  import opened Publishing
  import opened Handling
  import HandlingProofs
  import opened PublishedLog

  // ---- The transition system. ----

  /** `limit` is the handler's message limit, 0 for none. */
  datatype Config = Config(options: Options, limit: nat)

  /** `run`, `cuts`, `tscs`, `largest` and `gaps` record the past and steer nothing: the generator's run, where
      each packet starts in it and when it was stamped, the largest sequence number the handler has received,
      and the total length of the gaps it has seen. */
  datatype State = State(
    publisher: Publisher, handler: Outcome,
    run: Run, cuts: seq<nat>, tscs: seq<u64>, largest: nat, gaps: nat)

  ghost predicate RecordsPublisher(s: State) {
    ValidRun(s.run) && CurrentPool(s.run) == s.publisher.pool
  }

  type System = s: State | RecordsPublisher(s) ghost witness INITIAL

  const INITIAL := State(IDLE, Running(FRESH_HANDLER), START, [0], [], 0, 0)

  /** The publisher stores a packet; later it drops or sends that packet; at any time the network hands the
      handler any packet that was ever sent, or a datagram that does not parse. */
  datatype Step =
    | StorePacket(draws: seq<Draw>, publishTsc: u64)
    | SendPacket
    | Deliver(datagram: Bytes)

  predicate Listening(c: Config, s: State) {
    s.handler.Running? && !LimitReached(s.handler.h, c.limit)
  }

  predicate Enabled(c: Config, s: State, step: Step) {
    match step
    case StorePacket(draws, _) => CanStore(c.options, s.publisher, draws)
    case SendPacket => s.publisher.stored.Some?
    case Deliver(datagram) =>
      Listening(c, s) && (datagram in s.publisher.network || ParsePacket(datagram).None?)
  }

  /** A replay request goes out over TCP, is answered from the history of that moment, and comes back as packets. */
  function RecoverFrom(history: History): Recover {
    (startSeq, endSeq) => Recovery.Exchange(history, startSeq, endSeq)
  }

  function SeqNumOf(datagram: Bytes): u32 {
    match ParsePacket(datagram)
    case None => 0
    case Some(packet) => DecodeSeqNum(packet.header)
  }

  ghost function Do(c: Config, s: System, step: Step): System
    requires Accepted(c.options) && Enabled(c, s, step)
  {
    match step
    case StorePacket(draws, publishTsc) =>
      ExtendAllIsNextAll(s.run, draws);
      var run := ExtendAll(s.run, draws);
      s.(publisher := Store(c.options, s.publisher, draws, publishTsc),
         run := run, cuts := s.cuts + [|run.events|], tscs := s.tscs + [publishTsc])
    case SendPacket =>
      s.(publisher := SendOrDrop(c.options, s.publisher))
    case Deliver(datagram) =>
      var seqNum, expected := SeqNumOf(datagram), s.handler.h.expected;
      s.(handler := OnDatagram(s.handler.h, c.limit, datagram, RecoverFrom(s.publisher.history)),
         largest := if seqNum > s.largest then seqNum else s.largest,
         gaps := if seqNum > expected then s.gaps + (seqNum - expected) else s.gaps)
  }

  /** A run of the system: its steps and the states between them. */
  datatype Trace = Trace(steps: seq<Step>, states: seq<System>)

  ghost predicate ValidTrace(c: Config, t: Trace) {
    && Accepted(c.options)
    && |t.states| == |t.steps| + 1
    && t.states[0] == INITIAL
    && forall i :: 0 <= i < |t.steps| ==> StepAt(c, t, i)
  }

  ghost predicate StepAt(c: Config, t: Trace, i: nat)
    requires Accepted(c.options) && i < |t.steps| && |t.states| == |t.steps| + 1
  {
    Enabled(c, t.states[i], t.steps[i]) && t.states[i + 1] == Do(c, t.states[i], t.steps[i])
  }

  function LogOf(s: State): Log {
    Log(s.run.events, s.cuts, s.tscs)
  }

  // ---- What every step keeps. ----

  /** The history holds packets `1..n` and nothing else. */
  ghost predicate HistoryIs(history: History, l: Log)
    requires ValidLog(l)
  {
    forall k: u32 ::
      && (k in history <==> 1 <= k <= PacketCount(l))
      && (k in history ==> history[k] == Wire(l, k))
  }

  /** The skip option lets packet `k` through. */
  predicate Kept(o: Options, k: nat) {
    o.skipEvery == 0 || k % o.skipEvery != 0
  }

  /** The datagram is one of the first `n` packets, and one that is not dropped. */
  ghost predicate SentUpTo(datagram: Bytes, o: Options, l: Log, n: nat)
    requires ValidLog(l) && n <= PacketCount(l)
  {
    exists k: u32 :: 1 <= k <= n && Kept(o, k) && datagram == Wire(l, k)
  }

  /** Exactly those datagrams have been sent. */
  ghost predicate NetworkIs(network: set<Bytes>, o: Options, l: Log, n: nat)
    requires ValidLog(l) && n <= PacketCount(l)
  {
    forall b :: b in network <==> SentUpTo(b, o, l, n)
  }

  /** How many messages are in the packets sent among the first `n`, and in those dropped. */
  function SentMessages(o: Options, cuts: seq<int>, n: nat): int
    requires n < |cuts|
  {
    if n == 0 then 0 else SentMessages(o, cuts, n - 1) + if Kept(o, n) then cuts[n] - cuts[n - 1] else 0
  }

  function DroppedMessages(o: Options, cuts: seq<int>, n: nat): int
    requires n < |cuts|
  {
    if n == 0 then 0 else DroppedMessages(o, cuts, n - 1) + if Kept(o, n) then 0 else cuts[n] - cuts[n - 1]
  }

  lemma {:induction false} SizesKept(o: Options, cuts: seq<nat>, more: seq<nat>, n: nat)
    requires n < |cuts| && cuts <= more
    ensures SentMessages(o, cuts, n) == SentMessages(o, more, n)
    ensures DroppedMessages(o, cuts, n) == DroppedMessages(o, more, n)
  {
    if n > 0 {
      SizesKept(o, cuts, more, n - 1);
    }
  }

  /** How many of the first `n` packets the skip option drops. */
  function Dropped(o: Options, n: nat): nat {
    if n == 0 then 0 else Dropped(o, n - 1) + if o.skipEvery != 0 && n % o.skipEvery == 0 then 1 else 0
  }

  /** Packets that are past their send or drop. */
  function Done(s: State): int {
    if s.publisher.stored.Some? then |s.tscs| - 1 else |s.tscs|
  }

  /** Where packet `k` ends in the stream: every packet but the last is full. */
  function CutAt(o: Options, k: nat): nat {
    if k * o.messagesPerPacket < o.messages then k * o.messagesPerPacket else o.messages
  }

  ghost predicate FullPackets(o: Options, l: Log) {
    forall k :: 0 <= k < |l.cuts| ==> l.cuts[k] == CutAt(o, k)
  }

  lemma NextCut(o: Options, k: nat, emitted: nat)
    requires emitted == CutAt(o, k) && emitted < o.messages
    ensures CutAt(o, k + 1) == emitted + BatchSize(o, emitted)
  {
    assert (k + 1) * o.messagesPerPacket == k * o.messagesPerPacket + o.messagesPerPacket;
  }

  ghost predicate LogOk(c: Config, s: State) {
    && ValidLog(LogOf(s))
    && FullPackets(c.options, LogOf(s))
    && PacketCount(LogOf(s)) <= U32_MAX
    && |s.run.events| <= c.options.messages
    && 0 <= Done(s)
    && s.publisher.sequence == (if Done(s) == U32_MAX then 0 else Done(s) + 1)
    && s.publisher.emitted == s.cuts[Done(s)]
  }

  /** The packet between its store and its send is packet `k`. */
  ghost predicate StoredIs(packet: Packet, l: Log, k: u32)
    requires ValidLog(l) && 1 <= k <= PacketCount(l)
  {
    assert CutOk(l, k);
    packet == Packet(Wire(l, k), l.cuts[k] - l.cuts[k - 1])
  }

  ghost predicate PacketsOk(c: Config, s: State)
    requires LogOk(c, s)
  {
    var l, p := LogOf(s), s.publisher;
    && HistoryIs(p.history, l)
    && NetworkIs(p.network, c.options, l, Done(s))
    && (p.stored.Some? ==> StoredIs(p.stored.value, l, p.sequence))
  }

  predicate CountersOk(c: Config, s: State) {
    && 0 <= Done(s) < |s.cuts|
    && s.publisher.droppedPackets == Dropped(c.options, Done(s))
    && s.publisher.sentPackets + s.publisher.droppedPackets == Done(s)
    && s.publisher.sentMessages == SentMessages(c.options, s.cuts, Done(s))
    && s.publisher.droppedMessages == DroppedMessages(c.options, s.cuts, Done(s))
    && s.publisher.sentMessages + s.publisher.droppedMessages == s.publisher.emitted
  }

  ghost predicate PublisherOk(c: Config, s: State) {
    LogOk(c, s) && PacketsOk(c, s) && CountersOk(c, s)
  }

  /** The packet parked at the limit, or else the last one processed. */
  function LargestSeen(h: Handler): int {
    if h.buffered.Keys == {} then h.expected - 1 else Books.FirstKey(h.buffered.Keys)
  }

  ghost predicate HandlerOk(c: Config, s: State) {
    && s.handler.Running?
    && Synced(s.handler.h, c.limit, LogOf(s))
    && HandlingProofs.AtLoopHead(s.handler.h, c.limit)
    && s.largest == LargestSeen(s.handler.h)
    && HandlingProofs.Missing(s.handler.h) >= 0
    && s.handler.h.stats.replay + HandlingProofs.Missing(s.handler.h) == s.gaps
    && s.largest <= PacketCount(LogOf(s))
  }

  ghost predicate Invariant(c: Config, s: State) {
    PublisherOk(c, s) && HandlerOk(c, s)
  }

  // ---- The log only grows. ----

  ghost predicate Extends(l: Log, m: Log) {
    && l.events <= m.events
    && l.cuts <= m.cuts
    && l.tscs <= m.tscs
  }

  lemma WireKept(l: Log, m: Log, k: u32)
    requires ValidLog(l) && ValidLog(m) && Extends(l, m)
    requires 1 <= k <= PacketCount(l)
    ensures Wire(l, k) == Wire(m, k)
  {
    assert CutOk(l, k) && CutOk(m, k);
    assert l.events[l.cuts[k - 1]..l.cuts[k]] == m.events[m.cuts[k - 1]..m.cuts[k]];
  }

  lemma {:induction false} AlertsKept(events: seq<Event>, more: seq<Event>, n: nat)
    requires events <= more && n <= |events|
    ensures AlertsIn(events, n) == AlertsIn(more, n)
  {
    if n > 0 {
      AlertsKept(events, more, n - 1);
      assert events[..n] == more[..n] && events[..n - 1] == more[..n - 1];
    }
  }

  lemma SyncedKept(h: Handler, limit: nat, l: Log, m: Log)
    requires Synced(h, limit, l) && ValidLog(m) && Extends(l, m) && PacketCount(m) < U32_MAX
    ensures Synced(h, limit, m)
  {
    hide Books.ApplyAll, Books.BboOf;
    AlertsKept(l.events, m.events, h.received);
    assert l.events[..h.received] == m.events[..h.received];
    forall k | 0 <= k < |l.cuts|
      ensures l.cuts[k] == m.cuts[k]
    {
    }
  }

  // ---- One step at a time. ----

  lemma StoreGrowsLog(c: Config, s: System, draws: seq<Draw>, publishTsc: u64)
    requires Accepted(c.options) && Enabled(c, s, StorePacket(draws, publishTsc)) && PublisherOk(c, s)
    ensures var l, m := LogOf(s), LogOf(Do(c, s, StorePacket(draws, publishTsc)));
            && Extends(l, m)
            && ValidLog(m)
            && PacketCount(m) == PacketCount(l) + 1
            && m.events == l.events + NextAll(s.publisher.pool, draws).1
            && |m.events| <= c.options.messages
            && m.cuts == l.cuts + [|m.events|]
            && FullPackets(c.options, m)
  {
    hide Do, NextAll, Wire, PacketsOk, CountersOk, ValidRun, CutAt, CutOk, Drawable;
    var l, m := LogOf(s), LogOf(Do(c, s, StorePacket(draws, publishTsc)));
    LogAfterStore(c, s, draws, publishTsc);
    NextCut(c.options, PacketCount(l), s.publisher.emitted);
    BufferHolds42(0);
    OneMoreBatch(l, m);
  }

  lemma LogAfterStore(c: Config, s: System, draws: seq<Draw>, publishTsc: u64)
    requires Accepted(c.options) && Enabled(c, s, StorePacket(draws, publishTsc))
    ensures var l, m := LogOf(s), LogOf(Do(c, s, StorePacket(draws, publishTsc)));
            && m.events == l.events + NextAll(s.publisher.pool, draws).1
            && m.cuts == l.cuts + [|m.events|]
            && m.tscs == l.tscs + [publishTsc]
  {
    hide NextAll, ExtendAll, ValidRun, Store;
    ExtendAllIsNextAll(s.run, draws);
  }

  lemma OneMoreBatch(l: Log, m: Log)
    requires ValidLog(l) && Extends(l, m)
    requires PacketCount(m) == PacketCount(l) + 1 && m.cuts == l.cuts + [|m.events|]
    requires |l.events| < |m.events| <= |l.events| + 42
    ensures ValidLog(m)
  {
    forall k | 1 <= k <= PacketCount(m)
      ensures CutOk(m, k)
    {
      assert k <= PacketCount(l) ==> CutOk(l, k);
    }
  }

  lemma StoreKeepsPublisher(c: Config, s: System, draws: seq<Draw>, publishTsc: u64)
    requires Accepted(c.options) && Enabled(c, s, StorePacket(draws, publishTsc)) && PublisherOk(c, s)
    requires PacketCount(LogOf(s)) < U32_MAX
    ensures PublisherOk(c, Do(c, s, StorePacket(draws, publishTsc)))
  {
    hide NextAll, ExtendAll, PacketImage, ValidRun, Dropped, FullPackets, NetworkIs, SentMessages, DroppedMessages;
    StoreGrowsLog(c, s, draws, publishTsc);
    var t := Do(c, s, StorePacket(draws, publishTsc));
    var l, m := LogOf(s), LogOf(t);
    var n: u32 := PacketCount(m);
    assert CutOk(m, n);
    assert m.events[m.cuts[n - 1]..m.cuts[n]] == NextAll(s.publisher.pool, draws).1;
    forall k: u32
      ensures k in t.publisher.history <==> 1 <= k <= PacketCount(m)
      ensures k in t.publisher.history ==> t.publisher.history[k] == Wire(m, k)
    {
      assert k in s.publisher.history <==> 1 <= k <= PacketCount(l);
      if 1 <= k <= PacketCount(l) {
        WireKept(l, m, k);
      }
    }
    NetworkKept(s.publisher.network, c.options, l, m, Done(s));
    SizesKept(c.options, s.cuts, t.cuts, Done(s));
  }

  lemma NetworkKept(network: set<Bytes>, o: Options, l: Log, m: Log, n: nat)
    requires ValidLog(l) && ValidLog(m) && Extends(l, m) && n <= PacketCount(l) <= PacketCount(m)
    requires NetworkIs(network, o, l, n)
    ensures NetworkIs(network, o, m, n)
  {
    hide Wire, Kept;
    forall b
      ensures SentUpTo(b, o, l, n) <==> SentUpTo(b, o, m, n)
    {
      if SentUpTo(b, o, l, n) {
        var k: u32 :| 1 <= k <= n && Kept(o, k) && b == Wire(l, k);
        WireKept(l, m, k);
      }
      if SentUpTo(b, o, m, n) {
        var k: u32 :| 1 <= k <= n && Kept(o, k) && b == Wire(m, k);
        WireKept(l, m, k);
      }
    }
  }

  lemma NetworkGrows(network: set<Bytes>, o: Options, l: Log, n: nat)
    requires ValidLog(l) && n < PacketCount(l) <= U32_MAX && NetworkIs(network, o, l, n)
    ensures NetworkIs(if Kept(o, n + 1) then network + {Wire(l, n + 1)} else network, o, l, n + 1)
  {
    hide Wire, Kept;
    var after := if Kept(o, n + 1) then network + {Wire(l, n + 1)} else network;
    forall b
      ensures b in after <==> SentUpTo(b, o, l, n + 1)
    {
      assert b in network <==> SentUpTo(b, o, l, n);
      if SentUpTo(b, o, l, n) {
        var k: u32 :| 1 <= k <= n && Kept(o, k) && b == Wire(l, k);
        assert 1 <= k <= n + 1 && Kept(o, k) && b == Wire(l, k);
      }
      if SentUpTo(b, o, l, n + 1) {
        var k: u32 :| 1 <= k <= n + 1 && Kept(o, k) && b == Wire(l, k);
        assert k <= n ==> SentUpTo(b, o, l, n);
      }
      if Kept(o, n + 1) && b == Wire(l, n + 1) {
        var k: u32 := n + 1;
        assert Kept(o, k) && b == Wire(l, k);
      }
    }
  }

  lemma SendKeepsPublisher(c: Config, s: System)
    requires Accepted(c.options) && Enabled(c, s, SendPacket) && PublisherOk(c, s)
    ensures PublisherOk(c, Do(c, s, SendPacket))
  {
    hide Wire, HistoryIs, ValidRun, NetworkIs, FullPackets, Kept;
    var l, t := LogOf(s), Do(c, s, SendPacket);
    NetworkGrows(s.publisher.network, c.options, l, Done(s));
    SkipsExactly(c.options, s.publisher.sequence);
  }

  lemma SkipsExactly(o: Options, sequence: u32)
    ensures Skips(o, sequence) <==> !Kept(o, sequence)
    ensures Dropped(o, sequence + 1) == Dropped(o, sequence) + if Kept(o, sequence + 1) then 0 else 1
  {
  }

  /** Every gap request for published packets is answered in full and in order, through the TCP framing. */
  lemma RecoveryAnswers(history: History, l: Log, startSeq: u32, endSeq: u32)
    requires ValidLog(l) && PacketCount(l) < U32_MAX && HistoryIs(history, l)
    requires 1 <= startSeq <= endSeq <= PacketCount(l)
    ensures var r := RecoverFrom(history)(startSeq, endSeq);
            && r.Ok?
            && |r.value| == endSeq - startSeq + 1
            && forall i :: 0 <= i < |r.value| ==> r.value[i] == Wire(l, startSeq + i)
  {
    hide RangePackets, Recovery.ReadResponse, Recovery.Frames, Recovery.CountImage, CutOk;
    forall k: u32 | startSeq <= k <= endSeq
      ensures k in history && history[k] == Wire(l, k)
    {
    }
    FullRange(history, startSeq, endSeq);
    var packets := RangePackets(history, startSeq, endSeq);
    assert Recovery.AllReplayable(packets);
    Recovery.ExchangeExactly(history, startSeq, endSeq);
  }

  /** The handler's turn on a published packet: it never throws and stays in step with the stream. */
  lemma DeliverPublished(h: Handler, limit: nat, l: Log, history: History, k: u32)
    requires Synced(h, limit, l) && HandlingProofs.AtLoopHead(h, limit) && !LimitReached(h, limit)
    requires 1 <= k <= PacketCount(l) && HistoryIs(history, l)
    ensures var r := OnDatagram(h, limit, Wire(l, k), RecoverFrom(history));
            && r.Running?
            && Synced(r.h, limit, l)
            && HandlingProofs.AtLoopHead(r.h, limit)
            && (k < h.expected ==> r.h == h)
            && (k >= h.expected ==> HandlingProofs.UpTo(r.h, k))
            && r.h.stats.replay + HandlingProofs.Missing(r.h)
            == h.stats.replay + (if k > h.expected then k - h.expected else 0)
  {
    hide Wire, Tracks, Recovery.Exchange, HistoryIs, ParsePacket, CutOk, RequestReplay, Process, DecodeSeqNum;
    WireReads(l, k);
    if k > h.expected {
      DeliverGap(h, limit, l, history, k);
    } else if k == h.expected {
      ProcessWire(h, limit, l, FromLive);
      var after := Process(h, limit, Wire(l, k), FromLive).h;
      assert after.buffered == h.buffered == map[];
      assert Drain(after, limit) == Running(after);
      HandlingProofs.LoopHeadKept(h, limit, Wire(l, k), RecoverFrom(history));
    }
  }

  lemma DeliverGap(h: Handler, limit: nat, l: Log, history: History, k: u32)
    requires Synced(h, limit, l) && HandlingProofs.AtLoopHead(h, limit) && !LimitReached(h, limit)
    requires h.expected < k <= PacketCount(l) && HistoryIs(history, l)
    ensures var r := OnDatagram(h, limit, Wire(l, k), RecoverFrom(history));
            && r.Running?
            && Synced(r.h, limit, l)
            && HandlingProofs.AtLoopHead(r.h, limit)
            && HandlingProofs.UpTo(r.h, k)
            && r.h.stats.replay + HandlingProofs.Missing(r.h) == h.stats.replay + (k - h.expected)
  {
    hide Wire, Tracks, Recovery.Exchange, HistoryIs, ParsePacket, CutOk, RecoverFrom, OnDatagram, RequestReplay, GapEnd;
    var bytes, recover := Wire(l, k), RecoverFrom(history);
    WireReads(l, k);
    HandlingProofs.GapHandled(h, limit, k, bytes, recover);
    RecoveryAnswers(history, l, h.expected, k - 1);
    ReplayPublished(h, limit, l, k, recover);
  }

  lemma ReplayPublished(h: Handler, limit: nat, l: Log, k: u32, recover: Recover)
    requires Synced(h, limit, l) && h.buffered == map[] && !LimitReached(h, limit)
    requires h.expected < k <= PacketCount(l)
    requires recover(h.expected, k - 1).Ok?
    requires var packets := recover(h.expected, k - 1).value;
             && |packets| == k - h.expected
             && forall i :: 0 <= i < |packets| ==> packets[i] == Wire(l, h.expected + i)
    ensures var r := RequestReplay(Buffer(h, k, Wire(l, k)), limit, h.expected, k - 1, recover);
            r.Running? && Synced(r.h, limit, l)
  {
    hide Wire, Tracks, CutOk, ReplayAll, Process;
    var parked := Buffer(h, k, Wire(l, k));
    var asked := parked.(stats := parked.stats.(replayRequests := parked.stats.replayRequests + 1));
    TracksIgnoresCounters(h, asked, l.events);
    var packets := recover(h.expected, k - 1).value;
    ReplayWires(asked, limit, l, packets);
    var replayed := ReplayAll(asked, limit, packets).h;
    if !LimitReached(replayed, limit) {
      assert replayed.expected == k && replayed.buffered[k] == Wire(l, k);
      var taken := replayed.(buffered := replayed.buffered - {k});
      assert taken.buffered == map[];
      TracksIgnoresCounters(replayed, taken, l.events);
      ProcessWire(taken, limit, l, FromDrain);
      var after := Process(taken, limit, Wire(l, k), FromDrain).h;
      assert Drain(after, limit) == Running(after);
    }
  }

  lemma NoiseIgnored(h: Handler, limit: nat, datagram: Bytes, recover: Recover)
    requires ParsePacket(datagram).None?
    ensures OnDatagram(h, limit, datagram, recover) == Running(h)
  {
  }

  lemma UpToIsLargest(h: Handler, k: u32)
    requires HandlingProofs.UpTo(h, k) && k < U32_MAX
    ensures LargestSeen(h) == k && HandlingProofs.Missing(h) >= 0
  {
    if h.buffered.Keys != {} {
      assert Books.FirstKey(h.buffered.Keys) in {k};
    }
  }

  lemma SamePublisherOk(c: Config, s: State, t: State)
    requires PublisherOk(c, s) && t.publisher == s.publisher && LogOf(t) == LogOf(s)
    ensures PublisherOk(c, t)
  {
    hide Wire, HistoryIs, NetworkIs, ValidLog;
  }

  /** Whatever parses on the network is a packet of the stream. */
  lemma WhichPacket(c: Config, s: State, datagram: Bytes) returns (k: u32)
    requires PublisherOk(c, s) && datagram in s.publisher.network
    ensures ValidLog(LogOf(s)) && HistoryIs(s.publisher.history, LogOf(s))
    ensures 1 <= k <= PacketCount(LogOf(s)) && datagram == Wire(LogOf(s), k) && SeqNumOf(datagram) == k
  {
    hide Wire, HistoryIs, CountersOk;
    var l := LogOf(s);
    assert SentUpTo(datagram, c.options, l, Done(s));
    k :| 1 <= k <= Done(s) && Kept(c.options, k) && datagram == Wire(l, k);
    WireReads(l, k);
  }

  lemma DeliverKeepsHandler(c: Config, s: System, datagram: Bytes)
    requires Accepted(c.options) && Enabled(c, s, Deliver(datagram)) && Invariant(c, s)
    ensures Invariant(c, Do(c, s, Deliver(datagram)))
  {
    hide Wire, OnDatagram, RecoverFrom, Tracks, HandlingProofs.AtLoopHead, HandlingProofs.Missing,
      HandlingProofs.UpTo, LargestSeen, PublisherOk, HistoryIs, ValidRun;
    var h, t := s.handler.h, Do(c, s, Deliver(datagram));
    SamePublisherOk(c, s, t);
    if ParsePacket(datagram).None? {
      NoiseIgnored(h, c.limit, datagram, RecoverFrom(s.publisher.history));
    } else {
      var k := WhichPacket(c, s, datagram);
      EmptyShortOfLimit(h, c.limit);
      DeliverPublished(h, c.limit, LogOf(s), s.publisher.history, k);
      if k >= h.expected {
        UpToIsLargest(t.handler.h, k);
      }
    }
  }

  lemma EmptyShortOfLimit(h: Handler, limit: nat)
    requires HandlingProofs.AtLoopHead(h, limit) && !LimitReached(h, limit)
    ensures HandlingProofs.Missing(h) == 0 && LargestSeen(h) == h.expected - 1
  {
  }

  lemma StepKeepsInvariant(c: Config, s: System, step: Step)
    requires Accepted(c.options) && Enabled(c, s, step) && Invariant(c, s)
    requires PacketCount(LogOf(Do(c, s, step))) < U32_MAX
    ensures Invariant(c, Do(c, s, step))
  {
    hide Store, SendOrDrop, OnDatagram, ValidRun, Tracks, HistoryIs, NetworkIs, CutOk, CanStore;
    match step
    case StorePacket(draws, publishTsc) =>
      StoreGrowsLog(c, s, draws, publishTsc);
      StoreKeepsPublisher(c, s, draws, publishTsc);
      SyncedKept(s.handler.h, c.limit, LogOf(s), LogOf(Do(c, s, step)));
    case SendPacket =>
      SendKeepsPublisher(c, s);
    case Deliver(datagram) =>
      DeliverKeepsHandler(c, s, datagram);
  }

  lemma InitialInvariant(c: Config)
    requires Accepted(c.options)
    ensures Invariant(c, INITIAL)
  {
    hide PublisherOk, HandlerOk;
    InitialPublisherOk(c);
    InitialHandlerOk(c);
  }

  lemma InitialPublisherOk(c: Config)
    ensures PublisherOk(c, INITIAL)
  {
    hide Wire;
  }

  lemma InitialHandlerOk(c: Config)
    ensures HandlerOk(c, INITIAL)
  {
    hide Wire, HandlingProofs.AtLoopHead;
    HandlingProofs.FreshAtLoopHead(c.limit);
  }

  lemma LogNeverShrinks(c: Config, s: System, step: Step)
    requires Accepted(c.options) && Enabled(c, s, step)
    ensures Extends(LogOf(s), LogOf(Do(c, s, step)))
  {
    hide Store, SendOrDrop, OnDatagram, ValidRun, ExtendAll, NextAll;
    if step.StorePacket? {
      ExtendAllIsNextAll(s.run, step.draws);
    }
  }

  lemma {:induction false} LogOnlyGrows(c: Config, t: Trace, i: nat, j: nat)
    requires ValidTrace(c, t) && i <= j <= |t.steps|
    ensures Extends(LogOf(t.states[i]), LogOf(t.states[j]))
    decreases j
  {
    if i < j {
      hide Enabled, Do;
      assert StepAt(c, t, j - 1);
      LogOnlyGrows(c, t, i, j - 1);
      LogNeverShrinks(c, t.states[j - 1], t.steps[j - 1]);
    }
  }

  /** The invariant holds in every state of every run, as long as sequence numbers have not come to their
      32-bit end. */
  lemma {:induction false} RunsKeepInvariant(c: Config, t: Trace, n: nat)
    requires ValidTrace(c, t) && n <= |t.steps|
    requires PacketCount(LogOf(t.states[n])) < U32_MAX
    ensures Invariant(c, t.states[n])
  {
    hide Invariant, Enabled, Do, PublisherOk, HandlerOk, ValidLog, Wire;
    if n == 0 {
      InitialInvariant(c);
    } else {
      assert StepAt(c, t, n - 1);
      LogNeverShrinks(c, t.states[n - 1], t.steps[n - 1]);
      RunsKeepInvariant(c, t, n - 1);
      StepKeepsInvariant(c, t.states[n - 1], t.steps[n - 1]);
    }
  }
}
