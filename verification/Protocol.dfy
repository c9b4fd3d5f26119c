/** The packed UDP wire format: a 14-byte header followed by 24-byte messages, integers big-endian. */
module Protocol {
  import opened Prelude
  import opened BigEndian

  const HEADER_SIZE: nat := 14
  const MESSAGE_SIZE: nat := 24

  datatype Side = Buy | Sell
  datatype MessageType = AddOrder | ModifyOrder | DeleteOrder | Trade

  function SideChar(side: Side): u8 {
    match side
    case Buy => 'B' as int
    case Sell => 'S' as int
  }

  function MessageTypeChar(messageType: MessageType): u8 {
    match messageType
    case AddOrder => 'A' as int
    case ModifyOrder => 'M' as int
    case DeleteOrder => 'D' as int
    case Trade => 'T' as int
  }

  function SideFromChar(c: u8): (side: Option<Side>)
    ensures forall s :: side == Some(s) <==> c == SideChar(s)
  {
    if c == 'B' as int then Some(Buy)
    else if c == 'S' as int then Some(Sell)
    else None
  }

  function MessageTypeFromChar(c: u8): (messageType: Option<MessageType>)
    ensures forall t :: messageType == Some(t) <==> c == MessageTypeChar(t)
  {
    if c == 'A' as int then Some(AddOrder)
    else if c == 'M' as int then Some(ModifyOrder)
    else if c == 'D' as int then Some(DeleteOrder)
    else if c == 'T' as int then Some(Trade)
    else None
  }

  // ---- The packed structs. Every field holds its bytes in memory order. ----

  datatype PacketHeader = PacketHeader(seqNum: Be32, msgCount: Be16, publishTsc: Be64)

  type Pad6 = b: Bytes | |b| == 6 witness [0, 0, 0, 0, 0, 0]
  type Pad7 = b: Bytes | |b| == 7 witness [0, 0, 0, 0, 0, 0, 0]
  type Pad15 = b: Bytes | |b| == 15 witness [0, 0, 0, 0, 0, 0, 0, 0, 0, 0, 0, 0, 0, 0, 0]

  const NO_PAD7: Pad7 := [0, 0, 0, 0, 0, 0, 0]

  datatype Message =
    | AddOrderMsg(msgType: u8, orderId: Be64, side: u8, price: Be32, quantity: Be32, reserved6: Pad6)
    | ModifyOrderMsg(msgType: u8, orderId: Be64, price: Be32, quantity: Be32, reserved7: Pad7)
    | DeleteOrderMsg(msgType: u8, orderId: Be64, reserved15: Pad15)
    | TradeMsg(msgType: u8, orderId: Be64, price: Be32, quantity: Be32, reserved7: Pad7)

  function MakePacketHeader(seqNum: u32, msgCount: u16, publishTsc: u64): PacketHeader {
    PacketHeader(HostToNetwork32(seqNum), HostToNetwork16(msgCount), HostToNetwork64(publishTsc))
  }

  function MakeAddOrderMsg(orderId: u64, side: Side, price: u32, quantity: u32): Message {
    AddOrderMsg(MessageTypeChar(AddOrder), HostToNetwork64(orderId), SideChar(side),
                HostToNetwork32(price), HostToNetwork32(quantity), [0, 0, 0, 0, 0, 0])
  }

  function MakeModifyOrderMsg(orderId: u64, price: u32, quantity: u32): Message {
    ModifyOrderMsg(MessageTypeChar(ModifyOrder), HostToNetwork64(orderId),
                   HostToNetwork32(price), HostToNetwork32(quantity), NO_PAD7)
  }

  function MakeDeleteOrderMsg(orderId: u64): Message {
    DeleteOrderMsg(MessageTypeChar(DeleteOrder), HostToNetwork64(orderId),
                   [0, 0, 0, 0, 0, 0, 0, 0, 0, 0, 0, 0, 0, 0, 0])
  }

  function MakeTradeMsg(orderId: u64, price: u32, quantity: u32): Message {
    TradeMsg(MessageTypeChar(Trade), HostToNetwork64(orderId),
             HostToNetwork32(price), HostToNetwork32(quantity), NO_PAD7)
  }

  // ---- What a message says, in host integers. ----

  /** An add whose side byte is neither `B` nor `S` decodes to side `None`. */
  datatype Event =
    | Add(id: u64, side: Option<Side>, price: u32, quantity: u32)
    | Modify(id: u64, price: u32, quantity: u32)
    | Delete(id: u64)
    | Execute(id: u64, price: u32, quantity: u32)

  function Decode(m: Message): Event {
    var id := NetworkToHost64(m.orderId);
    match m
    case AddOrderMsg(_, _, side, price, quantity, _) =>
      Add(id, SideFromChar(side), NetworkToHost32(price), NetworkToHost32(quantity))
    case ModifyOrderMsg(_, _, price, quantity, _) =>
      Modify(id, NetworkToHost32(price), NetworkToHost32(quantity))
    case DeleteOrderMsg(_, _, _) =>
      Delete(id)
    case TradeMsg(_, _, price, quantity, _) =>
      Execute(id, NetworkToHost32(price), NetworkToHost32(quantity))
  }

  /** The events a `make_*` function can put in a message. */
  type MadeEvent = e: Event | e.Add? ==> e.side.Some? witness Delete(0)

  function Make(e: MadeEvent): Message {
    match e
    case Add(id, side, price, quantity) => MakeAddOrderMsg(id, side.value, price, quantity)
    case Modify(id, price, quantity) => MakeModifyOrderMsg(id, price, quantity)
    case Delete(id) => MakeDeleteOrderMsg(id)
    case Execute(id, price, quantity) => MakeTradeMsg(id, price, quantity)
  }

  function MakeAll(es: seq<MadeEvent>): (ms: seq<Message>)
    ensures |ms| == |es|
    ensures forall i :: 0 <= i < |es| ==> ms[i] == Make(es[i])
  {
    seq(|es|, i requires 0 <= i < |es| => Make(es[i]))
  }

  function DecodeSeqNum(h: PacketHeader): u32 { NetworkToHost32(h.seqNum) }
  function DecodeMsgCount(h: PacketHeader): u16 { NetworkToHost16(h.msgCount) }
  function DecodePublishTsc(h: PacketHeader): u64 { NetworkToHost64(h.publishTsc) }

  lemma DecodeMakeHeader(seqNum: u32, msgCount: u16, publishTsc: u64)
    ensures var h := MakePacketHeader(seqNum, msgCount, publishTsc);
            DecodeSeqNum(h) == seqNum && DecodeMsgCount(h) == msgCount && DecodePublishTsc(h) == publishTsc
  {
    ReadBack32(seqNum);
    ReadBack16(msgCount);
    ReadBack64(publishTsc);
  }

  /** Every `make_*` message carries its own tag and decodes to exactly the fields it was built from. */
  lemma DecodeMake(e: MadeEvent)
    ensures Decode(Make(e)) == e
    ensures Tagged(Make(e))
  {
    ReadBack64(e.id);
    if !e.Delete? {
      ReadBack32(e.price);
      ReadBack32(e.quantity);
    }
  }

  // ---- Memory images. ----

  function HeaderImage(h: PacketHeader): (b: Bytes)
    ensures |b| == HEADER_SIZE
  {
    h.seqNum + h.msgCount + h.publishTsc
  }

  function HeaderAt(b: Bytes): PacketHeader
    requires |b| == HEADER_SIZE
  {
    PacketHeader(b[0..4], b[4..6], b[6..14])
  }

  function MessageImage(m: Message): (b: Bytes)
    ensures |b| == MESSAGE_SIZE
  {
    match m
    case AddOrderMsg(t, id, side, price, quantity, pad) => [t] + id + [side] + price + quantity + pad
    case ModifyOrderMsg(t, id, price, quantity, pad) => [t] + id + price + quantity + pad
    case DeleteOrderMsg(t, id, pad) => [t] + id + pad
    case TradeMsg(t, id, price, quantity, pad) => [t] + id + price + quantity + pad
  }

  /** Reinterpret a 24-byte slot according to its first byte. */
  function MessageInSlot(b: Bytes): (m: Option<Message>)
    requires |b| == MESSAGE_SIZE
  {
    match MessageTypeFromChar(b[0])
    case None => None
    case Some(AddOrder) =>
      if SideFromChar(b[9]).None? then None
      else Some(AddOrderMsg(b[0], b[1..9], b[9], b[10..14], b[14..18], b[18..24]))
    case Some(ModifyOrder) => Some(ModifyOrderMsg(b[0], b[1..9], b[9..13], b[13..17], b[17..24]))
    case Some(DeleteOrder) => Some(DeleteOrderMsg(b[0], b[1..9], b[9..24]))
    case Some(Trade) => Some(TradeMsg(b[0], b[1..9], b[9..13], b[13..17], b[17..24]))
  }

  /** The tag byte names the struct, and an add carries a real side. */
  predicate Tagged(m: Message) {
    match m
    case AddOrderMsg(t, _, side, _, _, _) => t == MessageTypeChar(AddOrder) && SideFromChar(side).Some?
    case ModifyOrderMsg(t, _, _, _, _) => t == MessageTypeChar(ModifyOrder)
    case DeleteOrderMsg(t, _, _) => t == MessageTypeChar(DeleteOrder)
    case TradeMsg(t, _, _, _, _) => t == MessageTypeChar(Trade)
  }

  lemma AddSlot(m: Message)
    requires m.AddOrderMsg?
    ensures var b := MessageImage(m);
            b[0] == m.msgType && b[1..9] == m.orderId && b[9] == m.side && b[10..14] == m.price &&
            b[14..18] == m.quantity && b[18..24] == m.reserved6
  {
  }

  lemma ModifyOrTradeSlot(m: Message)
    requires m.ModifyOrderMsg? || m.TradeMsg?
    ensures var b := MessageImage(m);
            b[0] == m.msgType && b[1..9] == m.orderId && b[9..13] == m.price &&
            b[13..17] == m.quantity && b[17..24] == m.reserved7
  {
    var b := [m.msgType] + m.orderId + m.price + m.quantity + m.reserved7;
    assert b[1..9] == m.orderId;
    assert b[9..13] == m.price;
    assert b[13..17] == m.quantity;
    assert b[17..24] == m.reserved7;
  }

  lemma DeleteSlot(m: Message)
    requires m.DeleteOrderMsg?
    ensures var b := MessageImage(m);
            b[0] == m.msgType && b[1..9] == m.orderId && b[9..24] == m.reserved15
  {
  }

  /** A slot reads back as the message written into it exactly when that message is tagged. */
  lemma SlotRoundTrip(m: Message)
    ensures MessageInSlot(MessageImage(m)) == Some(m) <==> Tagged(m)
  {
    match m
    case AddOrderMsg(_, _, _, _, _, _) => AddSlot(m);
    case ModifyOrderMsg(_, _, _, _, _) => ModifyOrTradeSlot(m);
    case DeleteOrderMsg(_, _, _) => DeleteSlot(m);
    case TradeMsg(_, _, _, _, _) => ModifyOrTradeSlot(m);
  }

  lemma CutSlot(b: Bytes)
    requires |b| == MESSAGE_SIZE
    ensures b == [b[0]] + b[1..9] + b[9..24]
    ensures b[9..24] == b[9..13] + b[13..17] + b[17..24]
    ensures b[9..24] == [b[9]] + b[10..14] + b[14..18] + b[18..24]
  {
  }

  lemma ImageOfSlot(b: Bytes)
    requires |b| == MESSAGE_SIZE && MessageInSlot(b).Some?
    ensures MessageImage(MessageInSlot(b).value) == b
  {
    hide MessageTypeFromChar, SideFromChar;
    CutSlot(b);
    var start := [b[0]] + b[1..9];
    assert start + (b[9..13] + b[13..17] + b[17..24]) == start + b[9..13] + b[13..17] + b[17..24];
    assert start + ([b[9]] + b[10..14] + b[14..18] + b[18..24]) == start + [b[9]] + b[10..14] + b[14..18] + b[18..24];
  }

  // ---- Packets. ----

  function PacketSizeBytes(msgCount: u16): nat {
    HEADER_SIZE + 24 * msgCount
  }

  datatype PacketView = PacketView(header: PacketHeader, messageBytes: Bytes)

  function ParsePacket(bytes: Bytes): (packet: Option<PacketView>)
    ensures packet.Some? ==> Consistent(packet.value)
  {
    if |bytes| < HEADER_SIZE then None
    else
      var header := HeaderAt(bytes[..HEADER_SIZE]);
      if |bytes| != PacketSizeBytes(DecodeMsgCount(header)) then None
      else Some(PacketView(header, bytes[HEADER_SIZE..]))
  }

  /** What `parse_packet` establishes: the payload holds the announced number of slots. */
  predicate Consistent(packet: PacketView) {
    |packet.messageBytes| == 24 * DecodeMsgCount(packet.header)
  }

  /** The `index`-th 24-byte slot of a payload. */
  function Slot(messageBytes: Bytes, index: nat): (slot: Bytes)
    requires 24 * index + 24 <= |messageBytes|
    ensures |slot| == MESSAGE_SIZE
  {
    messageBytes[24 * index..][..24]
  }

  function MessageAt(packet: PacketView, index: nat): Option<Message>
    requires Consistent(packet)
  {
    if index >= DecodeMsgCount(packet.header) then None
    else MessageInSlot(Slot(packet.messageBytes, index))
  }

  function Payload(messages: seq<Message>): (b: Bytes)
    ensures |b| == 24 * |messages|
  {
    if messages == [] then []
    else Payload(messages[..|messages| - 1]) + MessageImage(messages[|messages| - 1])
  }

  function PacketImage(seqNum: u32, messages: seq<Message>, publishTsc: u64): (b: Bytes)
    requires |messages| <= U16_MAX
    ensures |b| == PacketSizeBytes(|messages|)
  {
    HeaderImage(MakePacketHeader(seqNum, |messages|, publishTsc)) + Payload(messages)
  }

  lemma PayloadGrows(head: Bytes, messages: seq<Message>, index: nat)
    requires index < |messages|
    ensures head + Payload(messages[..index + 1])
         == head + Payload(messages[..index]) + MessageImage(messages[index])
  {
    assert messages[..index + 1][..index] == messages[..index];
  }

  lemma {:induction false} PayloadSlot(messages: seq<Message>, i: nat)
    requires i < |messages|
    ensures Slot(Payload(messages), i) == MessageImage(messages[i])
  {
    hide MessageImage;
    var n := |messages| - 1;
    if i == n {
    } else {
      PayloadSlot(messages[..n], i);
      assert Slot(Payload(messages), i) == Slot(Payload(messages[..n]), i);
    }
  }

  lemma HeaderRoundTrip(h: PacketHeader, b: Bytes)
    requires |b| == HEADER_SIZE
    ensures HeaderAt(HeaderImage(h)) == h
    ensures HeaderImage(HeaderAt(b)) == b
  {
    assert b == b[0..4] + b[4..6] + b[6..14];
  }

  /** Serialize then parse: every header field comes back, slot `i` sits at offset `14 + 24 * i`,
      and message `i` reads back unchanged exactly when it is tagged. */
  lemma ParseSerialized(seqNum: u32, messages: seq<Message>, publishTsc: u64)
    requires |messages| <= U16_MAX
    ensures var bytes := PacketImage(seqNum, messages, publishTsc);
            var packet := ParsePacket(bytes);
            && packet.Some?
            && DecodeSeqNum(packet.value.header) == seqNum
            && DecodeMsgCount(packet.value.header) == |messages|
            && DecodePublishTsc(packet.value.header) == publishTsc
            && (forall i :: 0 <= i < |messages| ==>
                  && bytes[14 + 24 * i..][..24] == MessageImage(messages[i])
                  && (MessageAt(packet.value, i) == Some(messages[i]) <==> Tagged(messages[i])))
            && (forall i :: i >= |messages| ==> MessageAt(packet.value, i) == None)
  {
    var bytes := PacketImage(seqNum, messages, publishTsc);
    var header := MakePacketHeader(seqNum, |messages|, publishTsc);
    DecodeMakeHeader(seqNum, |messages|, publishTsc);
    assert bytes[..HEADER_SIZE] == HeaderImage(header);
    HeaderRoundTrip(header, bytes[..HEADER_SIZE]);
    var packet := ParsePacket(bytes).value;
    assert packet.messageBytes == Payload(messages);
    forall i | 0 <= i < |messages|
      ensures bytes[14 + 24 * i..][..24] == MessageImage(messages[i])
      ensures MessageAt(packet, i) == Some(messages[i]) <==> Tagged(messages[i])
    {
      PayloadSlot(messages, i);
      SlotRoundTrip(messages[i]);
      assert bytes[14 + 24 * i..][..24] == Slot(packet.messageBytes, i);
    }
  }

  lemma {:induction false} PayloadFromImages(b: Bytes, messages: seq<Message>)
    requires |b| == 24 * |messages|
    requires forall i :: 0 <= i < |messages| ==> Slot(b, i) == MessageImage(messages[i])
    ensures Payload(messages) == b
  {
    hide MessageImage;
    if messages != [] {
      var n := |messages| - 1;
      var front := b[..24 * n];
      forall i | 0 <= i < n
        ensures Slot(front, i) == MessageImage(messages[..n][i])
      {
        assert Slot(front, i) == Slot(b, i);
      }
      PayloadFromImages(front, messages[..n]);
      assert b == front + Slot(b, n);
    }
  }

  /** Parse then serialize: an accepted packet whose messages all decode is the image of those messages. */
  lemma SerializeParsed(bytes: Bytes, messages: seq<Message>)
    requires ParsePacket(bytes).Some?
    requires |messages| == DecodeMsgCount(ParsePacket(bytes).value.header)
    requires forall i :: 0 <= i < |messages| ==> MessageAt(ParsePacket(bytes).value, i) == Some(messages[i])
    ensures var header := ParsePacket(bytes).value.header;
            PacketImage(DecodeSeqNum(header), messages, DecodePublishTsc(header)) == bytes
  {
    var packet := ParsePacket(bytes).value;
    var header := packet.header;
    NetworkHostNetwork(header.msgCount, header.seqNum, header.publishTsc);
    HeaderRoundTrip(header, bytes[..HEADER_SIZE]);
    forall i | 0 <= i < |messages|
      ensures Slot(packet.messageBytes, i) == MessageImage(messages[i])
    {
      assert MessageAt(packet, i) == Some(messages[i]);
      ImageOfSlot(Slot(packet.messageBytes, i));
    }
    PayloadFromImages(packet.messageBytes, messages);
    assert bytes == bytes[..HEADER_SIZE] + bytes[HEADER_SIZE..];
  }

  // ---- Where each field lies on the wire. ----

  /** The header comes first: sequence number, message count and stamp, each in network order. */
  lemma PacketLayout(seqNum: u32, messages: seq<Message>, publishTsc: u64)
    requires |messages| <= U16_MAX
    ensures var b := PacketImage(seqNum, messages, publishTsc);
            && b[0..4] == HostToNetwork32(seqNum)
            && b[4..6] == HostToNetwork16(|messages|)
            && b[6..14] == HostToNetwork64(publishTsc)
            && b[14..] == Payload(messages)
  {
    hide HostToNetwork16, HostToNetwork32, HostToNetwork64, Payload;
    var header := MakePacketHeader(seqNum, |messages|, publishTsc);
    CutHeader(header.seqNum, header.msgCount, header.publishTsc, Payload(messages));
  }

  lemma CutHeader(seqNum: Be32, msgCount: Be16, publishTsc: Be64, payload: Bytes)
    ensures var b := seqNum + msgCount + publishTsc + payload;
            b[0..4] == seqNum && b[4..6] == msgCount && b[6..14] == publishTsc && b[14..] == payload
  {
  }

  predicate Zeros(b: Bytes) {
    forall i :: 0 <= i < |b| ==> b[i] == 0
  }

  /** Every message starts with its letter and its order id; what a message does not use is zero. */
  lemma MessageLayout(e: MadeEvent)
    ensures var b := MessageImage(Make(e));
            && b[1..9] == HostToNetwork64(e.id)
            && match e
               case Add(_, side, price, quantity) =>
                 && b[0] == 'A' as int
                 && b[9] == (if side == Some(Buy) then 'B' else 'S') as int
                 && b[10..14] == HostToNetwork32(price) && b[14..18] == HostToNetwork32(quantity)
                 && Zeros(b[18..])
               case Modify(_, price, quantity) =>
                 && b[0] == 'M' as int
                 && b[9..13] == HostToNetwork32(price) && b[13..17] == HostToNetwork32(quantity)
                 && Zeros(b[17..])
               case Delete(_) =>
                 b[0] == 'D' as int && Zeros(b[9..])
               case Execute(_, price, quantity) =>
                 && b[0] == 'T' as int
                 && b[9..13] == HostToNetwork32(price) && b[13..17] == HostToNetwork32(quantity)
                 && Zeros(b[17..])
  {
    hide HostToNetwork32, HostToNetwork64, MessageImage;
    var b := MessageImage(Make(e));
    assert b[18..] == b[18..24] && b[17..] == b[17..24] && b[9..] == b[9..24];
    match e
    case Add(_, _, _, _) => AddSlot(Make(e));
    case Modify(_, _, _) => ModifyOrTradeSlot(Make(e));
    case Delete(_) => DeleteSlot(Make(e));
    case Execute(_, _, _) => ModifyOrTradeSlot(Make(e));
  }

  // ---- The serializer of the shared library. ----

  /** `memcpy` of one packed struct into a byte buffer. */
  method CopyWire(destination: array<u8>, offset: nat, image: Bytes)
    requires offset + |image| <= destination.Length
    modifies destination
    ensures destination[..offset + |image|] == old(destination[..offset]) + image
    ensures destination[offset + |image|..] == old(destination[offset + |image|..])
  {
    forall i | 0 <= i < |image| {
      destination[offset + i] := image[i];
    }
  }

  method SerializePacket(seqNum: u32, messages: seq<Message>, publishTsc: u64) returns (r: Result<Bytes>)
    ensures |messages| > U16_MAX ==> r == Err(TooManyMessages)
    ensures |messages| <= U16_MAX ==> r == Ok(PacketImage(seqNum, messages, publishTsc))
  {
    hide MessageImage, HeaderImage, MakePacketHeader;
    if |messages| > U16_MAX {
      return Err(TooManyMessages);
    }
    var bytes := new u8[PacketSizeBytes(|messages|)](_ => 0);
    var header := MakePacketHeader(seqNum, |messages|, publishTsc);
    CopyWire(bytes, 0, HeaderImage(header));
    var cursor := HEADER_SIZE;
    ghost var head := bytes[..cursor];
    assert head == HeaderImage(header);
    for index := 0 to |messages|
      invariant cursor == HEADER_SIZE + 24 * index
      invariant bytes[..cursor] == head + Payload(messages[..index])
    {
      ghost var before := bytes[..cursor];
      CopyWire(bytes, cursor, MessageImage(messages[index]));
      cursor := cursor + MESSAGE_SIZE;
      assert bytes[..cursor] == before + MessageImage(messages[index]);
      PayloadGrows(head, messages, index);
    }
    assert messages[..|messages|] == messages;
    assert bytes[..] == bytes[..cursor];
    return Ok(bytes[..]);
  }
}
