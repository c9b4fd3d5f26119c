/** Exactly when the handler leaves its loop by an exception, and what it has applied by then. */
module HandlingExits {
  import opened Prelude
  import opened Protocol
  import opened Books
  import opened Handling
  import opened HandlingProofs

  // ---- A packet is applied up to the first slot that does not decode. ----

  /** What the `count` slots from `index` on say. */
  function SlotEvents(packet: PacketView, index: nat, count: nat): seq<Event>
    requires Consistent(packet)
    requires forall i :: index <= i < index + count ==> MessageAt(packet, i).Some?
  {
    seq(count, i requires 0 <= i < count => Decode(MessageAt(packet, index + i).value))
  }

  lemma {:induction false} ApplyAllFromHead(b: Book, e: Event, es: seq<Event>)
    ensures ApplyAll(b, [e] + es) == ApplyAll(Apply(b, e), es)
  {
    hide Apply;
    if es == [] {
      assert ([e] + es)[..0] == [] && ([e] + es)[0] == e;
      assert ApplyAll(b, []) == b;
    } else {
      var n := |es| - 1;
      ApplyAllFromHead(b, e, es[..n]);
      assert ([e] + es)[..n + 1] == [e] + es[..n];
    }
  }

  lemma ApplyAllNone(b: Book)
    ensures ApplyAll(b, []) == b
  {
  }

  /** However the packet ends, a run of readable slots has been applied once each and in order; an exception
      points at the first unreadable slot, and without one only the limit stops short of the last slot. */
  lemma {:induction false} AppliesReadablePrefix(h: Handler, limit: nat, packet: PacketView, index: nat)
    requires Consistent(packet) && index <= DecodeMsgCount(packet.header) && !LimitReached(h, limit)
    ensures var r := ApplyMessages(h, limit, packet, index);
            && h.received <= r.h.received <= h.received + (DecodeMsgCount(packet.header) - index)
            && (forall i :: index <= i < index + (r.h.received - h.received) ==> MessageAt(packet, i).Some?)
            && r.h.book == ApplyAll(h.book, SlotEvents(packet, index, r.h.received - h.received))
            && (r.Thrown? ==> r.error == MalformedMessage && !LimitReached(r.h, limit))
            && (r.Thrown? ==> MessageAt(packet, index + (r.h.received - h.received)) == None)
            && (r.Running? && !LimitReached(r.h, limit) ==>
                  r.h.received - h.received == DecodeMsgCount(packet.header) - index)
    decreases DecodeMsgCount(packet.header) - index
  {
    hide Apply, ApplyAll, BboOf, Decode, MessageAt, DecodeMsgCount;
    var count := DecodeMsgCount(packet.header);
    if index < count && MessageAt(packet, index).Some? {
      var m := MessageAt(packet, index).value;
      var next := ApplyOne(h, m);
      if LimitReached(next, limit) {
        ApplyAllFromHead(h.book, Decode(m), []);
        ApplyAllNone(next.book);
        assert SlotEvents(packet, index, 1) == [Decode(m)] + [];
      } else {
        AppliesReadablePrefix(next, limit, packet, index + 1);
        var applied := ApplyMessages(next, limit, packet, index + 1).h.received - next.received;
        ApplyAllFromHead(h.book, Decode(m), SlotEvents(packet, index + 1, applied));
        assert SlotEvents(packet, index, applied + 1) == [Decode(m)] + SlotEvents(packet, index + 1, applied);
      }
    } else {
      ApplyAllNone(h.book);
      assert SlotEvents(packet, index, 0) == [];
    }
  }

  // ---- Exactly when each call throws, at any limit. ----

  /** A message that would be the one after `received` others is still applied. */
  predicate Within(received: nat, limit: nat) {
    limit == 0 || received < limit
  }

  /** How many messages have been applied once `more` have been offered after `received`. */
  function Capped(received: nat, limit: nat, more: nat): nat {
    if Within(received + more, limit) then received + more else limit
  }

  function CountOf(bytes: Bytes): nat {
    match ParsePacket(bytes)
    case None => 0
    case Some(packet) => DecodeMsgCount(packet.header)
  }

  /** Every slot that comes before the limit decodes. */
  predicate ReadableUpTo(packet: PacketView, index: nat, received: nat, limit: nat)
    requires Consistent(packet)
  {
    forall i :: index <= i < DecodeMsgCount(packet.header) && Within(received + (i - index), limit) ==>
                  MessageAt(packet, i).Some?
  }

  /** From `index` on, slot `i` is the first that does not decode. */
  predicate FirstUnreadable(packet: PacketView, index: nat, i: nat)
    requires Consistent(packet)
  {
    && index <= i < DecodeMsgCount(packet.header) && MessageAt(packet, i).None?
    && forall k :: index <= k < i ==> MessageAt(packet, k).Some?
  }

  lemma {:induction false} RunsExactly(h: Handler, limit: nat, packet: PacketView, index: nat)
    requires Consistent(packet) && index <= DecodeMsgCount(packet.header) && !LimitReached(h, limit)
    ensures var r := ApplyMessages(h, limit, packet, index);
            && (r.Running? <==> ReadableUpTo(packet, index, h.received, limit))
            && (r.Running? ==> r.h.received == Capped(h.received, limit, DecodeMsgCount(packet.header) - index))
            && (r.Thrown? ==> r.error == MalformedMessage && r.h.received >= h.received)
            && (r.Thrown? ==> FirstUnreadable(packet, index, index + (r.h.received - h.received)))
    decreases DecodeMsgCount(packet.header) - index
  {
    hide Apply, BboOf, Decode, MessageAt, DecodeMsgCount;
    if index < DecodeMsgCount(packet.header) {
      assert Within(h.received + (index - index), limit);
      if MessageAt(packet, index).Some? {
        var next := ApplyOne(h, MessageAt(packet, index).value);
        if !LimitReached(next, limit) {
          RunsExactly(next, limit, packet, index + 1);
        }
        ReadableFromNext(packet, index, h.received, limit);
      }
    }
  }

  lemma ReadableFromNext(packet: PacketView, index: nat, received: nat, limit: nat)
    requires Consistent(packet) && index < DecodeMsgCount(packet.header) && Within(received, limit)
    requires MessageAt(packet, index).Some?
    ensures !Within(received + 1, limit) ==> ReadableUpTo(packet, index, received, limit)
    ensures Within(received + 1, limit) ==>
              (ReadableUpTo(packet, index, received, limit) <==> ReadableUpTo(packet, index + 1, received + 1, limit))
  {
    hide MessageAt, DecodeMsgCount;
    if ReadableUpTo(packet, index, received, limit) {
      forall i | index + 1 <= i < DecodeMsgCount(packet.header) && Within(received + 1 + (i - (index + 1)), limit)
        ensures MessageAt(packet, i).Some?
      {
        assert Within(received + (i - index), limit);
      }
    }
    if Within(received + 1, limit) && ReadableUpTo(packet, index + 1, received + 1, limit) {
      forall i | index <= i < DecodeMsgCount(packet.header) && Within(received + (i - index), limit)
        ensures MessageAt(packet, i).Some?
      {
        assert i > index ==> Within(received + 1 + (i - (index + 1)), limit);
      }
    }
  }

  /** A packet offered after `received` messages is accepted: it carries the number asked for, and every message
      in it that comes before the limit decodes. */
  predicate Acceptable(bytes: Bytes, seqNum: u32, received: nat, limit: nat) {
    && SequencedAs(bytes, seqNum)
    && ReadableUpTo(ParsePacket(bytes).value, 0, received, limit)
  }

  /** The exception for a packet that is not acceptable. */
  function Refusal(bytes: Bytes, seqNum: u32): Error {
    if ParsePacket(bytes).None? then MalformedPacket
    else if !SequencedAs(bytes, seqNum) then SequenceMismatch
    else MalformedMessage
  }

  /** How many messages of such a packet are applied: those before its first unreadable one, if it is read at all. */
  predicate StopsAfter(bytes: Bytes, seqNum: u32, n: int) {
    if SequencedAs(bytes, seqNum) then n >= 0 && FirstUnreadable(ParsePacket(bytes).value, 0, n) else n == 0
  }

  lemma ProcessRunsExactly(h: Handler, limit: nat, bytes: Bytes, source: PacketSource)
    requires !LimitReached(h, limit)
    ensures var r := Process(h, limit, bytes, source);
            && (r.Running? <==> Acceptable(bytes, h.expected, h.received, limit))
            && (r.Running? ==> && r.h.expected == Succ32(h.expected)
                               && r.h.received == Capped(h.received, limit, CountOf(bytes)))
            && (r.Thrown? ==> && r.error == Refusal(bytes, h.expected)
                              && StopsAfter(bytes, h.expected, r.h.received - h.received))
  {
    hide ApplyMessages, ParsePacket, ReadableUpTo, FirstUnreadable, DecodeMsgCount, DecodeSeqNum;
    var packet := ParsePacket(bytes);
    if packet.Some? {
      RunsExactly(h, limit, packet.value, 0);
    }
  }

  /** How many messages the first `n` packets announce. */
  function Announced(packets: seq<Bytes>, n: nat): nat
    requires n <= |packets|
  {
    if n == 0 then 0 else CountOf(packets[0]) + Announced(packets[1..], n - 1)
  }

  /** Every packet that comes before the limit is acceptable as the next in sequence. */
  ghost predicate AcceptableReplay(packets: seq<Bytes>, first: u32, received: nat, limit: nat) {
    forall i :: 0 <= i < |packets| ==> AcceptableAt(packets, i, first, received, limit)
  }

  predicate AcceptableAt(packets: seq<Bytes>, i: nat, first: u32, received: nat, limit: nat)
    requires i < |packets|
  {
    Within(received + Announced(packets, i), limit) ==>
      Acceptable(packets[i], (first + i) % 0x1_0000_0000, received + Announced(packets, i), limit)
  }

  lemma AcceptableAtNext(packets: seq<Bytes>, i: nat, first: u32, received: nat, limit: nat)
    requires 0 < i < |packets|
    ensures AcceptableAt(packets, i, first, received, limit)
       <==> AcceptableAt(packets[1..], i - 1, Succ32(first), received + CountOf(packets[0]), limit)
  {
    hide Acceptable, CountOf;
    SuccAdds(first, i - 1);
  }

  lemma SuccAdds(first: u32, i: nat)
    ensures (Succ32(first) + i) % 0x1_0000_0000 == (first + (i + 1)) % 0x1_0000_0000
  {
  }

  lemma AcceptableSplits(packets: seq<Bytes>, first: u32, received: nat, limit: nat)
    requires packets != []
    ensures AcceptableReplay(packets, first, received, limit)
       <==> && AcceptableAt(packets, 0, first, received, limit)
            && AcceptableReplay(packets[1..], Succ32(first), received + CountOf(packets[0]), limit)
  {
    hide AcceptableAt, CountOf;
    forall i | 0 < i < |packets|
      ensures AcceptableAt(packets, i, first, received, limit)
         <==> AcceptableAt(packets[1..], i - 1, Succ32(first), received + CountOf(packets[0]), limit)
    {
      AcceptableAtNext(packets, i, first, received, limit);
    }
    var next, later := received + CountOf(packets[0]), packets[1..];
    if AcceptableReplay(packets, first, received, limit) {
      forall i | 0 <= i < |later|
        ensures AcceptableAt(later, i, Succ32(first), next, limit)
      {
        assert AcceptableAt(packets, i + 1, first, received, limit);
      }
    }
    if AcceptableAt(packets, 0, first, received, limit) && AcceptableReplay(later, Succ32(first), next, limit) {
      forall i | 0 <= i < |packets|
        ensures AcceptableAt(packets, i, first, received, limit)
      {
        assert i > 0 ==> AcceptableAt(later, i - 1, Succ32(first), next, limit);
      }
    }
  }

  lemma NothingPastLimit(packets: seq<Bytes>, first: u32, received: nat, limit: nat)
    requires !Within(received, limit)
    ensures AcceptableReplay(packets, first, received, limit)
  {
    hide Acceptable, Announced;
  }

  /** A replay is accepted if and only if each packet before the limit is the next in sequence and readable. */
  lemma {:induction false} ReplayRunsExactly(h: Handler, limit: nat, packets: seq<Bytes>)
    requires WithinLimit(h, limit)
    ensures var r := ReplayAll(h, limit, packets);
            && (r.Running? <==> AcceptableReplay(packets, h.expected, h.received, limit))
            && r.h.buffered == h.buffered
            && (r.Running? ==> r.h.received == Capped(h.received, limit, Announced(packets, |packets|)))
            && (r.Running? && !LimitReached(r.h, limit) ==>
                  r.h.expected == (h.expected + |packets|) % 0x1_0000_0000)
    decreases |packets|
  {
    hide Process, Acceptable, CountOf;
    if packets == [] {
    } else if LimitReached(h, limit) {
      hide Announced, AcceptableReplay;
      NothingPastLimit(packets, h.expected, h.received, limit);
    } else {
      ReplayStep(h, limit, packets);
      var r := Process(h, limit, packets[0], FromReplay);
      if r.Running? {
        ReplayRunsExactly(r.h, limit, packets[1..]);
        SuccAdds(h.expected, |packets| - 1);
      }
    }
  }

  lemma ReplayStep(h: Handler, limit: nat, packets: seq<Bytes>)
    requires packets != [] && !LimitReached(h, limit)
    ensures var r := Process(h, limit, packets[0], FromReplay);
            && WithinLimit(r.h, limit)
            && (r.Running? ==> r.h.expected == Succ32(h.expected))
            && (r.Running? ==> r.h.received == Capped(h.received, limit, CountOf(packets[0])))
            && (AcceptableReplay(packets, h.expected, h.received, limit) <==>
                  r.Running? && AcceptableReplay(packets[1..], Succ32(h.expected), r.h.received, limit))
  {
    hide Process, Acceptable, CountOf, AcceptableReplay;
    var r := Process(h, limit, packets[0], FromReplay);
    ProcessWithinLimit(h, limit, packets[0], FromReplay);
    ProcessRunsExactly(h, limit, packets[0], FromReplay);
    AcceptableSplits(packets, h.expected, h.received, limit);
    if r.Running? && LimitReached(r.h, limit) {
      NothingPastLimit(packets[1..], Succ32(h.expected), r.h.received, limit);
      NothingPastLimit(packets[1..], Succ32(h.expected), h.received + CountOf(packets[0]), limit);
    }
  }

  /** Packet `i` is the first that is not acceptable. */
  ghost predicate FirstRefused(packets: seq<Bytes>, i: nat, first: u32, received: nat, limit: nat) {
    && i < |packets| && !AcceptableAt(packets, i, first, received, limit)
    && forall k :: 0 <= k < i ==> AcceptableAt(packets, k, first, received, limit)
  }

  /** A replay throws at the first packet that is not acceptable. */
  lemma {:induction false} ReplayThrowsAt(h: Handler, limit: nat, packets: seq<Bytes>) returns (i: nat)
    requires WithinLimit(h, limit) && ReplayAll(h, limit, packets).Thrown?
    ensures FirstRefused(packets, i, h.expected, h.received, limit)
    ensures var r, refused := ReplayAll(h, limit, packets), (h.expected + i) % 0x1_0000_0000;
            && r.error == Refusal(packets[i], refused)
            && StopsAfter(packets[i], refused, r.h.received - h.received - Announced(packets, i))
    decreases |packets|
  {
    hide Process, Acceptable, CountOf, Refusal, StopsAfter, AcceptableAt;
    var r := Process(h, limit, packets[0], FromReplay);
    ProcessRunsExactly(h, limit, packets[0], FromReplay);
    FirstAcceptable(packets, h.expected, h.received, limit);
    if r.Thrown? {
      i := 0;
    } else {
      ProcessWithinLimit(h, limit, packets[0], FromReplay);
      var later := ReplayThrowsAt(r.h, limit, packets[1..]);
      i := later + 1;
      SuccAdds(h.expected, later);
      forall k | 0 < k <= i
        ensures AcceptableAt(packets, k, h.expected, h.received, limit)
           <==> AcceptableAt(packets[1..], k - 1, Succ32(h.expected), r.h.received, limit)
      {
        AcceptableAtNext(packets, k, h.expected, h.received, limit);
      }
    }
  }

  lemma FirstAcceptable(packets: seq<Bytes>, first: u32, received: nat, limit: nat)
    requires packets != [] && Within(received, limit)
    ensures AcceptableAt(packets, 0, first, received, limit) <==> Acceptable(packets[0], first, received, limit)
  {
    hide Acceptable, CountOf;
    assert Announced(packets, 0) == 0;
  }

  /** The datagrams a handler survives: noise, stale packets, the expected packet if acceptable, and a packet
      beyond a gap for which recovery returns the missing packets, all of them and acceptable, and which is
      acceptable itself after them. What lies past the limit is never looked at. */
  ghost predicate Survivable(h: Handler, limit: nat, bytes: Bytes, recover: Recover) {
    match ParsePacket(bytes)
    case None => true
    case Some(packet) =>
      var seqNum := DecodeSeqNum(packet.header);
      if seqNum < h.expected then true
      else if seqNum == h.expected then Acceptable(bytes, seqNum, h.received, limit)
      else SurvivableGap(h, limit, bytes, seqNum, recover)
  }

  ghost predicate SurvivableGap(h: Handler, limit: nat, bytes: Bytes, seqNum: u32, recover: Recover)
    requires seqNum > h.expected
  {
    match recover(h.expected, seqNum - 1)
    case Err(_) => false
    case Ok(packets) =>
      var received := h.received + Announced(packets, |packets|);
      && |packets| == seqNum - h.expected
      && AcceptableReplay(packets, h.expected, h.received, limit)
      && (Within(received, limit) ==> Acceptable(bytes, seqNum, received, limit))
  }

  lemma ThrowsExactly(h: Handler, limit: nat, bytes: Bytes, recover: Recover)
    requires h.buffered == map[] && !LimitReached(h, limit)
    ensures OnDatagram(h, limit, bytes, recover).Running? <==> Survivable(h, limit, bytes, recover)
  {
    hide ReplayAll, ParsePacket, DecodeSeqNum, Process, RequestReplay, FirstKey, ReadableUpTo, SurvivableGap;
    var packet := ParsePacket(bytes);
    if packet.Some? {
      var seqNum := DecodeSeqNum(packet.value.header);
      assert SequencedAs(bytes, seqNum);
      if seqNum > h.expected {
        var parked := Buffer(h, seqNum, bytes);
        assert parked.buffered.Keys == {seqNum} && FirstKey(parked.buffered.Keys) == seqNum;
        assert (seqNum + U32_MAX) % 0x1_0000_0000 == seqNum - 1;
        GapThrowsExactly(h, limit, bytes, seqNum, recover);
      } else if seqNum == h.expected {
        ProcessRunsExactly(h, limit, bytes, FromLive);
        var r := Process(h, limit, bytes, FromLive);
        assert r.Running? ==> Drain(r.h, limit) == r;
      }
    }
  }

  /** Which exception it is, and how many messages have been applied by then: recovery's own, a count that is not
      the gap's, or that of the first packet, replayed or parked or expected, that is not acceptable. */
  ghost predicate ThrownBy(h: Handler, limit: nat, bytes: Bytes, seqNum: u32, recover: Recover, r: Outcome)
    requires seqNum >= h.expected && r.Thrown?
  {
    var applied := r.h.received - h.received;
    if seqNum == h.expected then r.error == Refusal(bytes, seqNum) && StopsAfter(bytes, seqNum, applied)
    else
      match recover(h.expected, seqNum - 1)
      case Err(e) => r.error == e && applied == 0
      case Ok(packets) =>
        if |packets| != seqNum - h.expected then r.error == ReplayCountMismatch && applied == 0
        else if AcceptableReplay(packets, h.expected, h.received, limit) then
          && r.error == Refusal(bytes, seqNum)
          && StopsAfter(bytes, seqNum, applied - Announced(packets, |packets|))
        else
          exists i: nat :: RefusedAt(packets, i, h.expected, h.received, limit, r)
  }

  ghost predicate RefusedAt(packets: seq<Bytes>, i: nat, first: u32, received: nat, limit: nat, r: Outcome)
    requires r.Thrown?
  {
    && FirstRefused(packets, i, first, received, limit)
    && r.error == Refusal(packets[i], (first + i) % 0x1_0000_0000)
    && StopsAfter(packets[i], (first + i) % 0x1_0000_0000, r.h.received - received - Announced(packets, i))
  }

  lemma ThrowsWhy(h: Handler, limit: nat, bytes: Bytes, seqNum: u32, recover: Recover)
    requires h.buffered == map[] && !LimitReached(h, limit)
    requires SequencedAs(bytes, seqNum) && OnDatagram(h, limit, bytes, recover).Thrown?
    ensures seqNum >= h.expected
    ensures ThrownBy(h, limit, bytes, seqNum, recover, OnDatagram(h, limit, bytes, recover))
  {
    hide ReplayAll, ParsePacket, DecodeSeqNum, Process, RequestReplay, GapEnd, ReadableUpTo, Refusal, StopsAfter,
      FirstRefused;
    if seqNum > h.expected {
      GapAsked(h, limit, seqNum, bytes, recover);
      GapThrowsWhy(h, limit, bytes, seqNum, recover);
    } else {
      ProcessRunsExactly(h, limit, bytes, FromLive);
      var r := Process(h, limit, bytes, FromLive);
      assert r.Running? ==> Drain(r.h, limit) == r;
    }
  }

  lemma GapThrowsWhy(h: Handler, limit: nat, bytes: Bytes, seqNum: u32, recover: Recover)
    requires h.buffered == map[] && !LimitReached(h, limit) && seqNum > h.expected
    requires RequestReplay(Buffer(h, seqNum, bytes), limit, h.expected, seqNum - 1, recover).Thrown?
    ensures ThrownBy(h, limit, bytes, seqNum, recover,
                     RequestReplay(Buffer(h, seqNum, bytes), limit, h.expected, seqNum - 1, recover))
  {
    hide ReplayAll, Drain, Acceptable, AcceptableReplay, Announced, Refusal, StopsAfter, FirstRefused;
    var parked := Buffer(h, seqNum, bytes);
    var asked := parked.(stats := parked.stats.(replayRequests := parked.stats.replayRequests + 1));
    assert asked.buffered == map[seqNum := bytes];
    match recover(h.expected, seqNum - 1)
    case Err(_) =>
    case Ok(packets) =>
      if |packets| == seqNum - h.expected {
        ReplayRunsExactly(asked, limit, packets);
        ReplayWithinLimit(asked, limit, packets);
        var replayed := ReplayAll(asked, limit, packets);
        if replayed.Running? {
          DrainOneExactly(replayed.h, limit, seqNum, bytes);
        } else {
          var i := ReplayThrowsAt(asked, limit, packets);
          var r := RequestReplay(parked, limit, h.expected, seqNum - 1, recover);
          assert r == Thrown(replayed.h, replayed.error);
          assert RefusedAt(packets, i, h.expected, h.received, limit, r);
        }
      }
  }

  lemma GapThrowsExactly(h: Handler, limit: nat, bytes: Bytes, seqNum: u32, recover: Recover)
    requires h.buffered == map[] && !LimitReached(h, limit) && seqNum > h.expected
    ensures RequestReplay(Buffer(h, seqNum, bytes), limit, h.expected, seqNum - 1, recover).Running?
       <==> SurvivableGap(h, limit, bytes, seqNum, recover)
  {
    hide ReplayAll, Drain, Acceptable, AcceptableReplay, Announced;
    var parked := Buffer(h, seqNum, bytes);
    var asked := parked.(stats := parked.stats.(replayRequests := parked.stats.replayRequests + 1));
    assert asked.buffered == map[seqNum := bytes];
    match recover(h.expected, seqNum - 1)
    case Err(_) =>
    case Ok(packets) =>
      if |packets| == seqNum - h.expected {
        ReplayRunsExactly(asked, limit, packets);
        ReplayWithinLimit(asked, limit, packets);
        var replayed := ReplayAll(asked, limit, packets);
        if replayed.Running? {
          DrainOneExactly(replayed.h, limit, seqNum, bytes);
        }
      }
  }

  lemma DrainOneExactly(h: Handler, limit: nat, seqNum: u32, bytes: Bytes)
    requires h.buffered == map[seqNum := bytes]
    requires !LimitReached(h, limit) ==> h.expected == seqNum
    ensures Drain(h, limit).Running? <==> LimitReached(h, limit) || Acceptable(bytes, seqNum, h.received, limit)
    ensures var r := Drain(h, limit);
            r.Thrown? ==> r.error == Refusal(bytes, seqNum) && StopsAfter(bytes, seqNum, r.h.received - h.received)
  {
    hide Process, Acceptable, Refusal, StopsAfter;
    if !LimitReached(h, limit) {
      var taken := h.(buffered := h.buffered - {seqNum});
      assert taken.buffered == map[];
      ProcessRunsExactly(taken, limit, bytes, FromDrain);
      var last := Process(taken, limit, bytes, FromDrain);
      assert last.Running? ==> Drain(last.h, limit) == last;
    }
  }
}
