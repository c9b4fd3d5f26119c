/** What the feed handler does with one datagram, as a function of its state. */
module Handling {
  import opened Prelude
  import opened Protocol
  import opened Books

  datatype PacketSource = FromLive | FromReplay | FromDrain

  datatype Stats = Stats(processed: nat, live: nat, replay: nat, drain: nat, replayRequests: nat, outOfOrder: nat)

  /** `alerts` lists the BBO changes announced so far. */
  datatype Handler = Handler(
    book: Book, received: nat, expected: u32, buffered: map<u32, Bytes>, stats: Stats, alerts: seq<ApplyResult>)

  const FRESH_HANDLER := Handler(EMPTY_BOOK, 0, 1, map[], Stats(0, 0, 0, 0, 0, 0), [])

  /** A `Thrown` handler has left its receive loop for good. */
  datatype Outcome = Running(h: Handler) | Thrown(h: Handler, error: Error)

  /** The recovery client as the handler sees it. */
  type Recover = (u32, u32) -> Result<seq<Bytes>>

  predicate LimitReached(h: Handler, limit: nat) {
    limit != 0 && h.received >= limit
  }

  function ApplyOne(h: Handler, m: Message): Handler {
    var after := Apply(h.book, Decode(m));
    var result := ApplyResult(BboOf(h.book), BboOf(after));
    h.(book := after, received := h.received + 1,
       alerts := if result.BboChanged() then h.alerts + [result] else h.alerts)
  }

  /** Apply the packet's messages from `index` on, stopping at the limit. */
  function ApplyMessages(h: Handler, limit: nat, packet: PacketView, index: nat): (r: Outcome)
    requires Consistent(packet)
    ensures r.h == h.(book := r.h.book, received := r.h.received, alerts := r.h.alerts)
    decreases DecodeMsgCount(packet.header) - index
  {
    if index >= DecodeMsgCount(packet.header) then Running(h)
    else
      match MessageAt(packet, index)
      case None => Thrown(h, MalformedMessage)
      case Some(m) =>
        var next := ApplyOne(h, m);
        if LimitReached(next, limit) then Running(next) else ApplyMessages(next, limit, packet, index + 1)
  }

  function Counted(s: Stats, source: PacketSource): Stats {
    var t := s.(processed := s.processed + 1);
    match source
    case FromLive => t.(live := t.live + 1)
    case FromReplay => t.(replay := t.replay + 1)
    case FromDrain => t.(drain := t.drain + 1)
  }

  function Process(h: Handler, limit: nat, bytes: Bytes, source: PacketSource): (r: Outcome)
    ensures r.h.buffered == h.buffered
  {
    match ParsePacket(bytes)
    case None => Thrown(h, MalformedPacket)
    case Some(packet) =>
      if DecodeSeqNum(packet.header) != h.expected then Thrown(h, SequenceMismatch)
      else
        match ApplyMessages(h, limit, packet, 0)
        case Thrown(after, e) => Thrown(after, e)
        case Running(after) =>
          Running(after.(stats := Counted(after.stats, source), expected := Succ32(h.expected)))
  }

  function Drain(h: Handler, limit: nat): Outcome
    decreases |h.buffered|
  {
    if LimitReached(h, limit) || h.expected !in h.buffered then Running(h)
    else
      match Process(h.(buffered := h.buffered - {h.expected}), limit, h.buffered[h.expected], FromDrain)
      case Thrown(after, e) => Thrown(after, e)
      case Running(after) => Drain(after, limit)
  }

  function ReplayAll(h: Handler, limit: nat, packets: seq<Bytes>): Outcome
    decreases |packets|
  {
    if packets == [] || LimitReached(h, limit) then Running(h)
    else
      match Process(h, limit, packets[0], FromReplay)
      case Thrown(after, e) => Thrown(after, e)
      case Running(after) => ReplayAll(after, limit, packets[1..])
  }

  function RequestReplay(h: Handler, limit: nat, startSeq: u32, endSeq: u32, recover: Recover): Outcome {
    if startSeq > endSeq || LimitReached(h, limit) then Running(h)
    else
      var asked := h.(stats := h.stats.(replayRequests := h.stats.replayRequests + 1));
      match recover(startSeq, endSeq)
      case Err(e) => Thrown(asked, e)
      case Ok(packets) =>
        if |packets| != endSeq - startSeq + 1 then Thrown(asked, ReplayCountMismatch)
        else
          match ReplayAll(asked, limit, packets)
          case Thrown(after, e) => Thrown(after, e)
          case Running(after) => Drain(after, limit)
  }

  /** `begin()->first - 1` on the buffer, in 32-bit arithmetic. */
  function GapEnd(buffered: map<u32, Bytes>): u32
    requires buffered.Keys != {}
  {
    (FirstKey(buffered.Keys) + U32_MAX) % 0x1_0000_0000
  }

  function Buffer(h: Handler, seqNum: u32, bytes: Bytes): Handler {
    h.(buffered := h.buffered[seqNum := bytes], stats := h.stats.(outOfOrder := h.stats.outOfOrder + 1))
  }

  function OnDatagram(h: Handler, limit: nat, bytes: Bytes, recover: Recover): Outcome {
    match ParsePacket(bytes)
    case None => Running(h)
    case Some(packet) =>
      var seqNum := DecodeSeqNum(packet.header);
      if seqNum < h.expected then Running(h)
      else if seqNum > h.expected then
        var parked := Buffer(h, seqNum, bytes);
        assert seqNum in parked.buffered.Keys;
        RequestReplay(parked, limit, h.expected, GapEnd(parked.buffered), recover)
      else
        match Process(h, limit, bytes, FromLive)
        case Thrown(after, e) => Thrown(after, e)
        case Running(after) => Drain(after, limit)
  }

  /** A datagram together with the recovery service at the time it is handled. */
  datatype Arrival = Arrival(bytes: Bytes, recover: Recover)

  /** The receive loop: one datagram after another until the limit is reached or something throws. */
  function OnAll(h: Handler, limit: nat, arrivals: seq<Arrival>): Outcome
    decreases |arrivals|
  {
    if arrivals == [] || LimitReached(h, limit) then Running(h)
    else
      match OnDatagram(h, limit, arrivals[0].bytes, arrivals[0].recover)
      case Thrown(after, e) => Thrown(after, e)
      case Running(after) => OnAll(after, limit, arrivals[1..])
  }
}
