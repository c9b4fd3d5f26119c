/** The published stream: its packets as bytes, and a handler that has applied a prefix of its messages. */
module PublishedLog {
  import opened Prelude
  import opened Protocol
  import opened Books
  import opened Recovery
  import opened Handling
  import opened HandlingProofs

  /** Packet `k` (counted from 1) carries `events[cuts[k - 1]..cuts[k]]`, stamped `tscs[k - 1]`. */
  datatype Log = Log(events: seq<MadeEvent>, cuts: seq<nat>, tscs: seq<u64>)

  function PacketCount(l: Log): nat {
    |l.tscs|
  }

  ghost predicate ValidLog(l: Log) {
    && |l.cuts| == |l.tscs| + 1
    && l.cuts[0] == 0
    && l.cuts[|l.tscs|] == |l.events|
    && forall k :: 1 <= k <= |l.tscs| ==> CutOk(l, k)
  }

  /** A batch has between 1 and 42 messages. */
  predicate CutOk(l: Log, k: nat)
    requires 1 <= k < |l.cuts|
  {
    l.cuts[k - 1] < l.cuts[k] <= |l.events| && l.cuts[k] - l.cuts[k - 1] <= 42
  }

  function Batch(l: Log, k: nat): (messages: seq<Message>)
    requires 1 <= k < |l.cuts| && CutOk(l, k)
    ensures |messages| == l.cuts[k] - l.cuts[k - 1]
  {
    MakeAll(l.events[l.cuts[k - 1]..l.cuts[k]])
  }

  /** The bytes of packet `k`. */
  ghost function Wire(l: Log, k: u32): (b: Bytes)
    requires ValidLog(l) && 1 <= k <= PacketCount(l)
    ensures Replayable(b)
  {
    assert CutOk(l, k);
    PacketImage(k, Batch(l, k), l.tscs[k - 1])
  }

  // ---- Reading a published packet. ----

  ghost predicate Carries(l: Log, k: nat, packet: PacketView)
    requires 1 <= k < |l.cuts| && CutOk(l, k) && Consistent(packet)
  {
    && DecodeMsgCount(packet.header) == l.cuts[k] - l.cuts[k - 1]
    && forall i :: 0 <= i < l.cuts[k] - l.cuts[k - 1] ==>
         MessageAt(packet, i) == Some(Make(l.events[l.cuts[k - 1] + i]))
  }

  lemma WireReads(l: Log, k: u32)
    requires ValidLog(l) && 1 <= k <= PacketCount(l)
    ensures CutOk(l, k)
    ensures SequencedAs(Wire(l, k), k)
    ensures Carries(l, k, ParsePacket(Wire(l, k)).value)
  {
    hide ParsePacket, PacketImage, MessageAt, MessageImage, DecodeSeqNum, DecodeMsgCount, DecodePublishTsc, Make,
      Tagged, Batch;
    assert CutOk(l, k);
    ParseSerialized(k, Batch(l, k), l.tscs[k - 1]);
    BatchTagged(l, k);
  }

  lemma BatchTagged(l: Log, k: nat)
    requires 1 <= k < |l.cuts| && CutOk(l, k)
    ensures forall i :: 0 <= i < |Batch(l, k)| ==>
              Batch(l, k)[i] == Make(l.events[l.cuts[k - 1] + i]) && Tagged(Batch(l, k)[i])
  {
    hide Make, Tagged, Decode;
    forall i | 0 <= i < |Batch(l, k)|
      ensures Batch(l, k)[i] == Make(l.events[l.cuts[k - 1] + i]) && Tagged(Batch(l, k)[i])
    {
      DecodeMake(l.events[l.cuts[k - 1] + i]);
    }
  }

  // ---- A handler that has applied a prefix of the stream. ----

  /** The BBO changes announced while applying the first `n` messages. */
  function AlertsIn(events: seq<Event>, n: nat): seq<ApplyResult>
    requires n <= |events|
  {
    if n == 0 then []
    else
      var result := ApplyResult(BboOf(ApplyAll(EMPTY_BOOK, events[..n - 1])), BboOf(ApplyAll(EMPTY_BOOK, events[..n])));
      if result.BboChanged() then AlertsIn(events, n - 1) + [result] else AlertsIn(events, n - 1)
  }

  /** Each of the first `received` messages has been applied once and in order, and nothing else has. */
  predicate Tracks(h: Handler, events: seq<Event>) {
    && h.received <= |events|
    && h.book == ApplyAll(EMPTY_BOOK, events[..h.received])
    && h.alerts == AlertsIn(events, h.received)
  }

  lemma TracksOne(h: Handler, events: seq<Event>, m: Message)
    requires Tracks(h, events) && h.received < |events| && Decode(m) == events[h.received]
    ensures Tracks(ApplyOne(h, m), events)
  {
    hide Apply, BboOf, Decode;
    assert events[..h.received + 1][..h.received] == events[..h.received];
  }

  lemma {:induction false} ApplyCarried(h: Handler, limit: nat, l: Log, k: nat, packet: PacketView, index: nat)
    requires 1 <= k < |l.cuts| && CutOk(l, k) && Consistent(packet) && Carries(l, k, packet)
    requires Tracks(h, l.events) && !LimitReached(h, limit)
    requires h.received == l.cuts[k - 1] + index && index <= l.cuts[k] - l.cuts[k - 1]
    ensures var r := ApplyMessages(h, limit, packet, index);
            && r.Running?
            && Tracks(r.h, l.events)
            && if LimitReached(r.h, limit) then r.h.received == limit && l.cuts[k - 1] < limit <= l.cuts[k]
               else r.h.received == l.cuts[k]
    decreases DecodeMsgCount(packet.header) - index
  {
    hide Apply, BboOf, Decode, Make, MessageAt, Tracks;
    if index < l.cuts[k] - l.cuts[k - 1] {
      var m := Make(l.events[h.received]);
      assert MessageAt(packet, index) == Some(m);
      DecodeMake(l.events[h.received]);
      TracksOne(h, l.events, m);
      if !LimitReached(ApplyOne(h, m), limit) {
        ApplyCarried(ApplyOne(h, m), limit, l, k, packet, index + 1);
      }
    }
  }

  /** Where a handler stands in the stream: all messages of packets `1..expected - 1`, unless the limit
      stopped it inside the last of them. */
  predicate Positioned(h: Handler, limit: nat, l: Log)
    requires |l.cuts| == |l.tscs| + 1
  {
    && 1 <= h.expected <= PacketCount(l) + 1
    && if LimitReached(h, limit) then
         h.received == limit && h.expected >= 2 && l.cuts[h.expected - 2] < limit <= l.cuts[h.expected - 1]
       else h.received == l.cuts[h.expected - 1]
  }

  ghost predicate Synced(h: Handler, limit: nat, l: Log) {
    && ValidLog(l)
    && PacketCount(l) < U32_MAX
    && Tracks(h, l.events)
    && Positioned(h, limit, l)
    && h.stats.processed == h.expected - 1
  }

  lemma ProcessWire(h: Handler, limit: nat, l: Log, source: PacketSource)
    requires Synced(h, limit, l) && !LimitReached(h, limit) && h.expected <= PacketCount(l)
    ensures var r := Process(h, limit, Wire(l, h.expected), source);
            && r.Running?
            && Synced(r.h, limit, l)
            && r.h.expected == h.expected + 1
            && r.h.buffered == h.buffered
            && r.h.stats == Counted(h.stats, source)
  {
    hide ParsePacket, ApplyMessages, Wire, DecodeSeqNum, DecodeMsgCount, Carries, Tracks, AlertsIn, ApplyAll, BboOf;
    var bytes := Wire(l, h.expected);
    WireReads(l, h.expected);
    var packet := ParsePacket(bytes).value;
    ApplyCarried(h, limit, l, h.expected, packet, 0);
    TracksIgnoresCounters(ApplyMessages(h, limit, packet, 0).h, Process(h, limit, bytes, source).h, l.events);
  }

  lemma TracksIgnoresCounters(h: Handler, g: Handler, events: seq<Event>)
    requires h.received == g.received && h.book == g.book && h.alerts == g.alerts
    ensures Tracks(h, events) <==> Tracks(g, events)
  {
    hide ApplyAll, AlertsIn;
  }

  lemma {:induction false} ReplayWires(h: Handler, limit: nat, l: Log, packets: seq<Bytes>)
    requires Synced(h, limit, l) && h.expected + |packets| <= PacketCount(l) + 1
    requires forall i :: 0 <= i < |packets| ==> packets[i] == Wire(l, h.expected + i)
    ensures var r := ReplayAll(h, limit, packets);
            && r.Running?
            && Synced(r.h, limit, l)
            && r.h.buffered == h.buffered
            && (!LimitReached(r.h, limit) ==> r.h.expected == h.expected + |packets|)
    decreases |packets|
  {
    hide Tracks, CutOk, Wire, Process;
    if packets != [] && !LimitReached(h, limit) {
      assert packets[0] == Wire(l, h.expected + 0);
      ProcessWire(h, limit, l, FromReplay);
      var after := Process(h, limit, packets[0], FromReplay).h;
      forall i | 0 <= i < |packets| - 1
        ensures packets[1..][i] == Wire(l, after.expected + i)
      {
        assert packets[i + 1] == Wire(l, h.expected + (i + 1));
      }
      ReplayWires(after, limit, l, packets[1..]);
    }
  }
}
