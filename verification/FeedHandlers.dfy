/** The feed handler object: the variables its receive loop updates, and the loops themselves. */
module FeedHandlers {
  import opened Prelude
  import opened Protocol
  import opened Books
  import opened LimitOrderBook
  import opened Handling
  import BookProofs
  import HandlingProofs
  import Pipeline
  import Guarantees

  /** How a call ended: normally, or by an exception that nothing catches. */
  function Ended(error: Option<Error>, h: Handler): Outcome {
    match error
    case None => Running(h)
    case Some(e) => Thrown(h, e)
  }

  class FeedHandler {
    const limit: nat
    const orderBook: OrderBook
    var receivedMessages: nat
    var expectedPacketSeq: u32
    var bufferedPackets: map<u32, Bytes>
    var processedPackets: nat
    var livePackets: nat
    var replayPackets: nat
    var drainPackets: nat
    var replayRequests: nat
    var outOfOrderPackets: nat
    var alerts: seq<ApplyResult>

    constructor (limit: nat)
      ensures fresh(orderBook)
      ensures this.limit == limit && Contents() == FRESH_HANDLER
    {
      this.limit := limit;
      orderBook := new OrderBook();
      receivedMessages, expectedPacketSeq, bufferedPackets := 0, 1, map[];
      processedPackets, livePackets, replayPackets, drainPackets := 0, 0, 0, 0;
      replayRequests, outOfOrderPackets, alerts := 0, 0, [];
    }

    function Contents(): Handler
      reads this, orderBook
    {
      Handler(orderBook.Contents(), receivedMessages, expectedPacketSeq, bufferedPackets,
              Stats(processedPackets, livePackets, replayPackets, drainPackets, replayRequests, outOfOrderPackets),
              alerts)
    }

    predicate AtLimit()
      reads this
    {
      limit != 0 && receivedMessages >= limit
    }

    method ProcessMessages(packet: PacketView) returns (error: Option<Error>)
      requires Consistent(packet)
      modifies this, orderBook
      ensures Ended(error, Contents()) == ApplyMessages(old(Contents()), limit, packet, 0)
    {
      hide Apply, BboOf, Decode, MessageAt, DecodeMsgCount, BookProofs.LiveAfter, BookProofs.Sound, BookProofs.Fits;
      ghost var start := Contents();
      var index := 0;
      while index < DecodeMsgCount(packet.header)
        invariant ApplyMessages(Contents(), limit, packet, index) == ApplyMessages(start, limit, packet, 0)
        decreases DecodeMsgCount(packet.header) - index
      {
        var message := MessageAt(packet, index);
        if message.None? {
          return Some(MalformedMessage);
        }
        var result := orderBook.ApplyMessage(message.value);
        receivedMessages := receivedMessages + 1;
        if result.BboChanged() {
          alerts := alerts + [result];
        }
        if AtLimit() {
          return None;
        }
        index := index + 1;
      }
      return None;
    }

    method ProcessPacketBytes(packetBytes: Bytes, source: PacketSource) returns (error: Option<Error>)
      modifies this, orderBook
      ensures Ended(error, Contents()) == Process(old(Contents()), limit, packetBytes, source)
    {
      hide ParsePacket, ApplyMessages, DecodeSeqNum, DecodeMsgCount;
      var packet := ParsePacket(packetBytes);
      if packet.None? {
        return Some(MalformedPacket);
      }
      var packetSeq := DecodeSeqNum(packet.value.header);
      if packetSeq != expectedPacketSeq {
        return Some(SequenceMismatch);
      }
      error := ProcessMessages(packet.value);
      if error.Some? {
        return;
      }
      processedPackets := processedPackets + 1;
      match source {
        case FromLive => livePackets := livePackets + 1;
        case FromReplay => replayPackets := replayPackets + 1;
        case FromDrain => drainPackets := drainPackets + 1;
      }
      expectedPacketSeq := Succ32(packetSeq);
    }

    method DrainBufferedPackets() returns (error: Option<Error>)
      modifies this, orderBook
      ensures Ended(error, Contents()) == Drain(old(Contents()), limit)
    {
      ghost var start := Contents();
      while !AtLimit() && expectedPacketSeq in bufferedPackets
        invariant Drain(Contents(), limit) == Drain(start, limit)
        decreases |bufferedPackets|
      {
        hide Process;
        var packetBytes := bufferedPackets[expectedPacketSeq];
        bufferedPackets := bufferedPackets - {expectedPacketSeq};
        error := ProcessPacketBytes(packetBytes, FromDrain);
        if error.Some? {
          return;
        }
      }
      return None;
    }

    method ReplayPackets(packets: seq<Bytes>) returns (error: Option<Error>)
      modifies this, orderBook
      ensures Ended(error, Contents()) == ReplayAll(old(Contents()), limit, packets)
    {
      hide Process;
      ghost var start := Contents();
      var index := 0;
      while index < |packets| && !AtLimit()
        invariant 0 <= index <= |packets|
        invariant ReplayAll(Contents(), limit, packets[index..]) == ReplayAll(start, limit, packets)
        decreases |packets| - index
      {
        assert packets[index..][1..] == packets[index + 1..];
        error := ProcessPacketBytes(packets[index], FromReplay);
        if error.Some? {
          return;
        }
        index := index + 1;
      }
      return None;
    }

    method Replay(startSeq: u32, endSeq: u32, recover: Recover) returns (error: Option<Error>)
      modifies this, orderBook
      ensures Ended(error, Contents()) == RequestReplay(old(Contents()), limit, startSeq, endSeq, recover)
    {
      hide ReplayAll, Drain;
      if startSeq > endSeq || AtLimit() {
        return None;
      }
      replayRequests := replayRequests + 1;
      var answer := recover(startSeq, endSeq);
      if answer.Err? {
        return Some(answer.error);
      }
      if |answer.value| != endSeq - startSeq + 1 {
        return Some(ReplayCountMismatch);
      }
      error := ReplayPackets(answer.value);
      if error.Some? {
        return;
      }
      error := DrainBufferedPackets();
    }

    method ReceiveDatagram(packetBytes: Bytes, recover: Recover) returns (error: Option<Error>)
      modifies this, orderBook
      ensures Ended(error, Contents()) == OnDatagram(old(Contents()), limit, packetBytes, recover)
    {
      hide Process, RequestReplay, Drain, FirstKey;
      var packet := ParsePacket(packetBytes);
      if packet.None? {
        return None;
      }
      var packetSeq := DecodeSeqNum(packet.value.header);
      if packetSeq < expectedPacketSeq {
        return None;
      }
      if packetSeq > expectedPacketSeq {
        outOfOrderPackets := outOfOrderPackets + 1;
        bufferedPackets := bufferedPackets[packetSeq := packetBytes];
        assert packetSeq in bufferedPackets.Keys;
        error := Replay(expectedPacketSeq, GapEnd(bufferedPackets), recover);
        return;
      }
      error := ProcessPacketBytes(packetBytes, FromLive);
      if error.Some? {
        return;
      }
      error := DrainBufferedPackets();
    }

    /** The receive loop. Whatever arrives, it never applies more than `limit` messages, and it leaves
        the buffer empty unless the limit or an exception stopped it. On published traffic it does not throw
        and applies the stream. */
    method ReceiveLoop(arrivals: seq<Arrival>) returns (error: Option<Error>)
      modifies this, orderBook
      ensures Ended(error, Contents()) == OnAll(old(Contents()), limit, arrivals)
      ensures old(Contents()) == FRESH_HANDLER && limit != 0 ==> receivedMessages <= limit
      ensures old(Contents()) == FRESH_HANDLER && error.None? && !AtLimit() ==> bufferedPackets == map[]
      ensures forall c: Pipeline.Config, t: Pipeline.Trace, s: Pipeline.System ::
                old(Contents()) == FRESH_HANDLER && Guarantees.Feeds(c, t, s, limit, arrivals) ==>
                  error.None? && Guarantees.StreamApplied(Contents(), limit, s, arrivals)
    {
      hide OnDatagram;
      ghost var start := Contents();
      var index := 0;
      error := None;
      while index < |arrivals| && !AtLimit()
        invariant 0 <= index <= |arrivals| && error.None?
        invariant OnAll(Contents(), limit, arrivals[index..]) == OnAll(start, limit, arrivals)
        decreases |arrivals| - index
      {
        assert arrivals[index..][1..] == arrivals[index + 1..];
        error := ReceiveDatagram(arrivals[index].bytes, arrivals[index].recover);
        if error.Some? {
          assert Ended(error, Contents()) == OnAll(start, limit, arrivals);
          break;
        }
        index := index + 1;
      }
      hide OnAll;
      if start == FRESH_HANDLER {
        HandlingProofs.FreshRunsWithinLimit(limit, arrivals);
        if error.None? {
          HandlingProofs.FreshRunsEmptyBuffer(limit, arrivals);
        }
        forall c: Pipeline.Config, t: Pipeline.Trace, s: Pipeline.System
          | Guarantees.Feeds(c, t, s, limit, arrivals)
          ensures error.None? && Guarantees.StreamApplied(Contents(), limit, s, arrivals)
        {
          Guarantees.LoopEndToEnd(c, t, s);
        }
      }
    }
  }
}
