/** The exchange simulator: batching, the fixed publisher buffer, and store-then-drop-or-send. */
module Publishing {
  import opened Prelude
  import opened Protocol
  import opened Histories
  import opened Generators

  const PACKET_BUFFER_SIZE: nat := 1024
  const MAX_MESSAGES_PER_PACKET: nat := (PACKET_BUFFER_SIZE - HEADER_SIZE) / MESSAGE_SIZE

  /** A batch fits the publisher's buffer exactly when it has at most 42 messages. */
  lemma BufferHolds42(count: u16)
    ensures PacketSizeBytes(count) <= PACKET_BUFFER_SIZE <==> count <= 42
    ensures MAX_MESSAGES_PER_PACKET == 42
  {
    assert PACKET_BUFFER_SIZE - HEADER_SIZE == 1010 && MESSAGE_SIZE == 24;
  }

  /** The simulator's own serializer. It writes the bytes the library serializer returns, and only those. */
  method SerializePacketToBuffer(seqNum: u32, publishTsc: u64, messages: seq<Message>, buffer: array<u8>)
    returns (r: Result<nat>)
    modifies buffer
    ensures |messages| > U16_MAX ==> r == Err(TooManyMessages)
    ensures |messages| <= U16_MAX && PacketSizeBytes(|messages|) > buffer.Length ==> r == Err(PublisherBufferOverflow)
    ensures |messages| <= U16_MAX && PacketSizeBytes(|messages|) <= buffer.Length ==>
              && r == Ok(PacketSizeBytes(|messages|))
              && buffer[..r.value] == PacketImage(seqNum, messages, publishTsc)
              && buffer[r.value..] == old(buffer[r.value..])
    ensures r.Err? ==> buffer[..] == old(buffer[..])
  {
    hide MessageImage, HeaderImage, MakePacketHeader;
    if |messages| > U16_MAX {
      return Err(TooManyMessages);
    }
    var packetSize := PacketSizeBytes(|messages|);
    if packetSize > buffer.Length {
      return Err(PublisherBufferOverflow);
    }
    var header := MakePacketHeader(seqNum, |messages|, publishTsc);
    CopyWire(buffer, 0, HeaderImage(header));
    var cursor := HEADER_SIZE;
    ghost var head := buffer[..cursor];
    assert head == HeaderImage(header);
    for index := 0 to |messages|
      invariant cursor == HEADER_SIZE + 24 * index
      invariant buffer[..cursor] == head + Payload(messages[..index])
      invariant buffer[cursor..] == old(buffer[cursor..])
    {
      ghost var before, after := buffer[..cursor], buffer[cursor..];
      CopyWire(buffer, cursor, MessageImage(messages[index]));
      cursor := cursor + MESSAGE_SIZE;
      assert buffer[..cursor] == before + MessageImage(messages[index]);
      assert buffer[cursor..] == after[MESSAGE_SIZE..];
      PayloadGrows(head, messages, index);
    }
    assert messages[..|messages|] == messages;
    return Ok(packetSize);
  }

  // ---- The publish loop. ----

  datatype Options = Options(messages: u64, messagesPerPacket: nat, skipEvery: u64)

  /** What argument parsing lets through. */
  predicate Accepted(o: Options) {
    1 <= o.messagesPerPacket <= MAX_MESSAGES_PER_PACKET
  }

  /** Argument parsing lets through exactly the batch sizes that are not empty and that the buffer holds. */
  lemma AcceptedExactly(o: Options)
    ensures Accepted(o) <==> o.messagesPerPacket != 0 && 14 + 24 * o.messagesPerPacket <= 1024
  {
    BufferHolds42(0);
  }

  /** `stored` is the packet between its store and its send. */
  datatype Publisher = Publisher(
    pool: Pool, history: History, network: set<Bytes>, sequence: u32, emitted: nat, stored: Option<Packet>,
    sentPackets: nat, droppedPackets: nat, sentMessages: nat, droppedMessages: nat)

  datatype Packet = Packet(bytes: Bytes, count: nat)

  const IDLE := Publisher(EMPTY_POOL, map[], {}, 1, 0, None, 0, 0, 0, 0)

  function BatchSize(o: Options, emitted: nat): nat
    requires emitted < o.messages
  {
    if o.messagesPerPacket < o.messages - emitted then o.messagesPerPacket else o.messages - emitted
  }

  predicate CanStore(o: Options, p: Publisher, draws: seq<Draw>) {
    && p.stored.None?
    && p.emitted < o.messages
    && |draws| == BatchSize(o, p.emitted)
    && Drawable(p.pool, draws)
  }

  /** Generate a batch, serialize it and put it in the history. */
  function Store(o: Options, p: Publisher, draws: seq<Draw>, publishTsc: u64): Publisher
    requires Accepted(o) && CanStore(o, p, draws)
  {
    var (pool, events) := NextAll(p.pool, draws);
    var bytes := PacketImage(p.sequence, MakeAll(events), publishTsc);
    p.(pool := pool, history := p.history[p.sequence := bytes], stored := Some(Packet(bytes, |events|)))
  }

  predicate Skips(o: Options, sequence: u32) {
    o.skipEvery != 0 && sequence % o.skipEvery == 0
  }

  /** Drop or send the stored packet and move to the next sequence number. */
  function SendOrDrop(o: Options, p: Publisher): Publisher
    requires p.stored.Some?
  {
    var Packet(bytes, count) := p.stored.value;
    var counted :=
      if Skips(o, p.sequence) then
        p.(droppedPackets := p.droppedPackets + 1, droppedMessages := p.droppedMessages + count)
      else
        p.(network := p.network + {bytes},
           sentPackets := p.sentPackets + 1, sentMessages := p.sentMessages + count);
    counted.(emitted := p.emitted + count, sequence := Succ32(p.sequence), stored := None)
  }

  lemma BatchGrows(events: seq<MadeEvent>, p: Pool, draws: seq<Draw>)
    requires draws != [] && Drawable(p, draws)
    ensures var (q, e) := Next(p, draws[0]);
            && NextAll(p, draws).0 == NextAll(q, draws[1..]).0
            && events + NextAll(p, draws).1 == events + [e] + NextAll(q, draws[1..]).1
            && MakeAll(events + [e]) == MakeAll(events) + [Make(e)]
  {
    hide Make, Next;
  }

  class ExchangeSim {
    const options: Options
    const generator: MarketDataGenerator
    const packetHistory: PacketHistory
    var network: set<Bytes>
    var packetSequence: u32
    var emittedMessages: nat
    var sentPackets: nat
    var droppedPackets: nat
    var sentMessages: nat
    var droppedMessages: nat

    constructor (options: Options)
      ensures fresh(generator) && fresh(packetHistory)
      ensures this.options == options && Contents() == IDLE
    {
      this.options := options;
      generator := new MarketDataGenerator();
      packetHistory := new PacketHistory();
      network, packetSequence, emittedMessages := {}, 1, 0;
      sentPackets, droppedPackets, sentMessages, droppedMessages := 0, 0, 0, 0;
    }

    function Contents(): Publisher
      reads this, generator, packetHistory
    {
      Publisher(generator.Contents(), packetHistory.packets, network, packetSequence, emittedMessages, None,
                sentPackets, droppedPackets, sentMessages, droppedMessages)
    }

    method NextBatch(draws: seq<Draw>) returns (batch: seq<Message>)
      requires Drawable(generator.Contents(), draws)
      modifies generator
      ensures generator.Contents() == NextAll(old(generator.Contents()), draws).0
      ensures batch == MakeAll(NextAll(old(generator.Contents()), draws).1)
    {
      hide Next, Make, InRange, PoolOk, AsLive;
      ghost var start := generator.Contents();
      ghost var events: seq<MadeEvent> := [];
      batch := [];
      for index := 0 to |draws|
        invariant Drawable(generator.Contents(), draws[index..])
        invariant batch == MakeAll(events)
        invariant NextAll(start, draws).0 == NextAll(generator.Contents(), draws[index..]).0
        invariant NextAll(start, draws).1 == events + NextAll(generator.Contents(), draws[index..]).1
      {
        ghost var before := generator.Contents();
        assert draws[index..][1..] == draws[index + 1..];
        var message := generator.NextMessage(draws[index], 0);
        BatchGrows(events, before, draws[index..]);
        batch := batch + [message];
        events := events + [Next(before, draws[index]).1];
      }
      assert events + [] == events;
    }

    /** One turn of the publish loop is a store followed by a drop or a send. */
    method PublishNext(draws: seq<Draw>, publishTsc: u64)
      requires Accepted(options) && CanStore(options, Contents(), draws)
      modifies this, generator, packetHistory
      ensures Contents() == SendOrDrop(options, Store(options, old(Contents()), draws, publishTsc))
    {
      hide PacketImage, NextAll, Drawable, MakeAll;
      BufferHolds42(|draws|);
      var batch := NextBatch(draws);
      var packetBuffer := new u8[PACKET_BUFFER_SIZE](_ => 0);
      var serialized := SerializePacketToBuffer(packetSequence, publishTsc, batch, packetBuffer);
      var packet := packetBuffer[..serialized.value];
      packetHistory.Store(packetSequence, packet);
      var shouldSkip := options.skipEvery != 0 && packetSequence % options.skipEvery == 0;
      if shouldSkip {
        droppedPackets := droppedPackets + 1;
        droppedMessages := droppedMessages + |batch|;
      } else {
        network := network + {packet};
        sentPackets := sentPackets + 1;
        sentMessages := sentMessages + |batch|;
      }
      emittedMessages := emittedMessages + |batch|;
      packetSequence := Succ32(packetSequence);
    }
  }
}
