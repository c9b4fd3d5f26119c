/** What holds of the handler on any input: arbitrary datagrams and an arbitrary recovery service. */
module HandlingProofs {
  import opened Prelude
  import opened Protocol
  import opened Books
  import opened Handling

  // ---- The message limit is never overrun. ----

  predicate WithinLimit(h: Handler, limit: nat) {
    limit != 0 ==> h.received <= limit
  }

  lemma {:induction false} ApplyMessagesWithinLimit(h: Handler, limit: nat, packet: PacketView, index: nat)
    requires Consistent(packet) && WithinLimit(h, limit) && !LimitReached(h, limit)
    ensures WithinLimit(ApplyMessages(h, limit, packet, index).h, limit)
    decreases DecodeMsgCount(packet.header) - index
  {
    hide MessageInSlot, Apply, BboOf;
    if index < DecodeMsgCount(packet.header) {
      match MessageAt(packet, index)
      case None =>
      case Some(m) =>
        if !LimitReached(ApplyOne(h, m), limit) {
          ApplyMessagesWithinLimit(ApplyOne(h, m), limit, packet, index + 1);
        }
    }
  }

  lemma ProcessWithinLimit(h: Handler, limit: nat, bytes: Bytes, source: PacketSource)
    requires WithinLimit(h, limit) && !LimitReached(h, limit)
    ensures WithinLimit(Process(h, limit, bytes, source).h, limit)
  {
    var packet := ParsePacket(bytes);
    if packet.Some? {
      ApplyMessagesWithinLimit(h, limit, packet.value, 0);
    }
  }

  lemma {:induction false} DrainWithinLimit(h: Handler, limit: nat)
    requires WithinLimit(h, limit)
    ensures WithinLimit(Drain(h, limit).h, limit)
    decreases |h.buffered|
  {
    if !LimitReached(h, limit) && h.expected in h.buffered {
      var taken := h.(buffered := h.buffered - {h.expected});
      ProcessWithinLimit(taken, limit, h.buffered[h.expected], FromDrain);
      match Process(taken, limit, h.buffered[h.expected], FromDrain)
      case Thrown(_, _) =>
      case Running(after) => DrainWithinLimit(after, limit);
    }
  }

  lemma {:induction false} ReplayWithinLimit(h: Handler, limit: nat, packets: seq<Bytes>)
    requires WithinLimit(h, limit)
    ensures WithinLimit(ReplayAll(h, limit, packets).h, limit)
    decreases |packets|
  {
    if packets != [] && !LimitReached(h, limit) {
      ProcessWithinLimit(h, limit, packets[0], FromReplay);
      match Process(h, limit, packets[0], FromReplay)
      case Thrown(_, _) =>
      case Running(after) => ReplayWithinLimit(after, limit, packets[1..]);
    }
  }

  lemma RequestWithinLimit(h: Handler, limit: nat, startSeq: u32, endSeq: u32, recover: Recover)
    requires WithinLimit(h, limit)
    ensures WithinLimit(RequestReplay(h, limit, startSeq, endSeq, recover).h, limit)
  {
    hide ParsePacket, Process;
    var asked := h.(stats := h.stats.(replayRequests := h.stats.replayRequests + 1));
    match recover(startSeq, endSeq)
    case Err(_) =>
    case Ok(packets) =>
      ReplayWithinLimit(asked, limit, packets);
      DrainWithinLimit(ReplayAll(asked, limit, packets).h, limit);
  }

  /** On any datagram and any recovery service, even one that makes the handler throw. */
  lemma OnDatagramWithinLimit(h: Handler, limit: nat, bytes: Bytes, recover: Recover)
    requires WithinLimit(h, limit) && !LimitReached(h, limit)
    ensures WithinLimit(OnDatagram(h, limit, bytes, recover).h, limit)
  {
    match ParsePacket(bytes)
    case None =>
    case Some(packet) =>
      var seqNum := DecodeSeqNum(packet.header);
      if seqNum > h.expected {
        var parked := Buffer(h, seqNum, bytes);
        assert seqNum in parked.buffered.Keys;
        RequestWithinLimit(parked, limit, h.expected, GapEnd(parked.buffered), recover);
      } else if seqNum == h.expected {
        ProcessWithinLimit(h, limit, bytes, FromLive);
        DrainWithinLimit(Process(h, limit, bytes, FromLive).h, limit);
      }
  }

  // ---- Draining. ----

  predicate KeysMatch(buffered: map<u32, Bytes>) {
    forall k :: k in buffered ==> SequencedAs(buffered[k], k)
  }

  predicate SequencedAs(bytes: Bytes, seqNum: u32) {
    var packet := ParsePacket(bytes);
    packet.Some? && DecodeSeqNum(packet.value.header) == seqNum
  }

  predicate AllReadable(bytes: Bytes) {
    var packet := ParsePacket(bytes);
    packet.Some? && forall i :: 0 <= i < DecodeMsgCount(packet.value.header) ==> MessageAt(packet.value, i).Some?
  }

  lemma {:induction false} ReadableNeverThrows(h: Handler, limit: nat, packet: PacketView, index: nat)
    requires Consistent(packet)
    requires forall i :: index <= i < DecodeMsgCount(packet.header) ==> MessageAt(packet, i).Some?
    ensures ApplyMessages(h, limit, packet, index).Running?
    decreases DecodeMsgCount(packet.header) - index
  {
    hide ApplyOne, MessageInSlot;
    if index < DecodeMsgCount(packet.header) {
      var next := ApplyOne(h, MessageAt(packet, index).value);
      if !LimitReached(next, limit) {
        ReadableNeverThrows(next, limit, packet, index + 1);
      }
    }
  }

  predicate Ready(buffered: map<u32, Bytes>) {
    forall k :: k in buffered ==> SequencedAs(buffered[k], k) && AllReadable(buffered[k])
  }

  lemma ReadablePacketProcessed(h: Handler, limit: nat, bytes: Bytes, source: PacketSource)
    requires SequencedAs(bytes, h.expected) && AllReadable(bytes)
    ensures var r := Process(h, limit, bytes, source);
            r.Running? && r.h.expected == Succ32(h.expected) && r.h.stats == Counted(h.stats, source)
  {
    hide ApplyMessages, MessageAt;
    ReadableNeverThrows(h, limit, ParsePacket(bytes).value, 0);
  }

  lemma DrainStep(h: Handler, limit: nat) returns (after: Handler)
    requires Ready(h.buffered) && h.expected in h.buffered && !LimitReached(h, limit)
    ensures Drain(h, limit) == Drain(after, limit)
    ensures after.expected == Succ32(h.expected)
    ensures after.buffered == h.buffered - {h.expected} && |after.buffered| < |h.buffered|
    ensures Ready(after.buffered)
    ensures after.stats.drain == h.stats.drain + 1
  {
    hide Process, SequencedAs, AllReadable, Succ32;
    var bytes := h.buffered[h.expected];
    var taken := h.(buffered := h.buffered - {h.expected});
    ReadablePacketProcessed(taken, limit, bytes, FromDrain);
    after := Process(taken, limit, bytes, FromDrain).h;
  }

  /** The `i`-th sequence number from `first` on, wrapping at 2^32. */
  function Nth(first: u32, i: nat): u32 {
    (first + i) % 0x1_0000_0000
  }

  lemma NthOfNext(first: u32, i: nat)
    ensures Nth(Succ32(first), i) == Nth(first, i + 1)
  {
  }

  predicate RunBuffered(buffered: map<u32, Bytes>, first: u32, n: nat) {
    forall i :: 0 <= i < n ==> Nth(first, i) in buffered
  }

  function RunOf(first: u32, n: nat): set<u32> {
    set i | 0 <= i < n :: Nth(first, i)
  }

  lemma RunOfNext(first: u32, n: nat)
    ensures RunOf(first, n + 1) == {first} + RunOf(Succ32(first), n)
  {
    hide Nth, Succ32;
    assert Nth(first, 0) == first by { NthZero(first); }
    forall k
      ensures k in RunOf(first, n + 1) <==> k in {first} + RunOf(Succ32(first), n)
    {
      if k in RunOf(first, n + 1) {
        var i :| 0 <= i < n + 1 && k == Nth(first, i);
        if i > 0 {
          NthOfNext(first, i - 1);
          assert k == Nth(Succ32(first), i - 1);
        }
      }
      if k in RunOf(Succ32(first), n) {
        var i :| 0 <= i < n && k == Nth(Succ32(first), i);
        NthOfNext(first, i);
        assert k == Nth(first, i + 1);
      }
    }
  }

  lemma NthZero(first: u32)
    ensures Nth(first, 0) == first
  {
  }

  lemma DrainStops(h: Handler, limit: nat)
    requires LimitReached(h, limit) || h.expected !in h.buffered
    ensures Drain(h, limit) == Running(h)
  {
    hide Process;
  }

  lemma NoRun(buffered: map<u32, Bytes>, first: u32)
    ensures RunBuffered(buffered, first, 0)
    ensures buffered - RunOf(first, 0) == buffered
    ensures Nth(first, 0) == first
  {
    assert RunOf(first, 0) == {};
  }

  /** A number that is there, followed by a run in the rest of the buffer, makes a run one longer. */
  lemma RunExtends(buffered: map<u32, Bytes>, first: u32, n: nat)
    requires first in buffered && RunBuffered(buffered - {first}, Succ32(first), n)
    ensures RunBuffered(buffered, first, n + 1)
    ensures buffered - {first} - RunOf(Succ32(first), n) == buffered - RunOf(first, n + 1)
    ensures Nth(Succ32(first), n) == Nth(first, n + 1)
  {
    hide Nth, Succ32, RunOf;
    forall i | 0 <= i < n + 1
      ensures Nth(first, i) in buffered
    {
      if i == 0 {
        NthZero(first);
      } else {
        NthOfNext(first, i - 1);
        assert Nth(Succ32(first), i - 1) in buffered - {first};
      }
    }
    RunOfNext(first, n);
    NthOfNext(first, n);
  }

  /** Draining readable packets always ends normally, at any limit and across the 32-bit wrap: it takes the
      run of consecutive packets from `expected` on out of the buffer and nothing else, and it stops at the
      first number that is not there or at the limit. */
  lemma {:induction false} DrainTakesTheRun(h: Handler, limit: nat)
    requires Ready(h.buffered)
    ensures var r := Drain(h, limit);
            var n := r.h.stats.drain - h.stats.drain;
            && r.Running?
            && 0 <= n <= |h.buffered|
            && r.h.expected == Nth(h.expected, n)
            && RunBuffered(h.buffered, h.expected, n)
            && r.h.buffered == h.buffered - RunOf(h.expected, n)
            && (LimitReached(r.h, limit) || r.h.expected !in r.h.buffered)
    decreases |h.buffered|
  {
    hide Ready, Process, Drain, RunOf, RunBuffered, Nth, Succ32;
    if LimitReached(h, limit) || h.expected !in h.buffered {
      DrainStops(h, limit);
      NoRun(h.buffered, h.expected);
    } else {
      var after := DrainStep(h, limit);
      DrainTakesTheRun(after, limit);
      RunExtends(h.buffered, h.expected, Drain(after, limit).h.stats.drain - after.stats.drain);
    }
  }

  lemma NthBelowEnd(first: u32, i: nat)
    requires first + i <= U32_MAX
    ensures Nth(first, i) == first + i
  {
  }

  lemma RunBelowEnd(buffered: map<u32, Bytes>, first: u32, n: nat)
    requires RunBuffered(buffered, first, n) && U32_MAX !in buffered
    ensures first + n <= U32_MAX && Nth(first, n) == first + n
    ensures forall k: u32 :: k in RunOf(first, n) <==> first <= k < first + n
    ensures forall k :: k in RunOf(first, n) ==> k in buffered
  {
    hide Nth;
    forall k: u32 | first <= k < first + n
      ensures k in buffered
    {
      NthBelowEnd(first, k - first);
      assert k == Nth(first, k - first);
    }
    assert U32_MAX !in buffered;
    NthBelowEnd(first, n);
    forall k: u32
      ensures k in RunOf(first, n) <==> first <= k < first + n
    {
      if k in RunOf(first, n) {
        var i :| 0 <= i < n && k == Nth(first, i);
        NthBelowEnd(first, i);
      }
      if first <= k < first + n {
        NthBelowEnd(first, k - first);
        assert k == Nth(first, k - first);
      }
    }
  }

  /** Short of the limit and of the 32-bit end, a drain moves `expected` to the least number at or above it
      that was absent from the buffer. */
  lemma DrainReachesLeastAbsent(h: Handler, limit: nat)
    requires Ready(h.buffered) && U32_MAX !in h.buffered
    ensures var r := Drain(h, limit);
            && r.Running?
            && r.h.expected >= h.expected
            && (forall k: u32 :: h.expected <= k < r.h.expected ==> k in h.buffered && k !in r.h.buffered)
            && (forall k: u32 :: k < h.expected || r.h.expected <= k ==> (k in h.buffered <==> k in r.h.buffered))
            && (!LimitReached(r.h, limit) ==> r.h.expected !in h.buffered)
  {
    hide Drain, Ready, Nth, RunOf;
    DrainTakesTheRun(h, limit);
    var r := Drain(h, limit);
    var n := r.h.stats.drain - h.stats.drain;
    RunBelowEnd(h.buffered, h.expected, n);
    forall k: u32 | h.expected <= k < r.h.expected
      ensures k in h.buffered
    {
      assert k in RunOf(h.expected, n);
    }
  }

  // ---- The buffer and the counters over the receive loop. ----

  /** `processed` splits by source, and tells the next sequence number. */
  predicate Balanced(h: Handler) {
    && h.stats.processed == h.stats.live + h.stats.replay + h.stats.drain
    && h.expected == (h.stats.processed + 1) % 0x1_0000_0000
  }

  lemma NextInSequence(processed: nat)
    ensures Succ32((processed + 1) % 0x1_0000_0000) == (processed + 2) % 0x1_0000_0000
  {
  }

  lemma ProcessAdvances(h: Handler, limit: nat, bytes: Bytes, source: PacketSource)
    requires Balanced(h) && Process(h, limit, bytes, source).Running?
    ensures var after := Process(h, limit, bytes, source).h;
            && Balanced(after)
            && after.expected == Succ32(h.expected)
            && after.buffered == h.buffered
            && after.stats == Counted(h.stats, source)
  {
    hide ApplyMessages, ParsePacket, MessageAt;
    NextInSequence(h.stats.processed);
    var packet := ParsePacket(bytes).value;
    assert ApplyMessages(h, limit, packet, 0).Running?;
  }

  /** A replay that ends normally has taken its packets in sequence; short of the limit it took them all. */
  lemma {:induction false} ReplayAdvances(h: Handler, limit: nat, packets: seq<Bytes>)
    requires Balanced(h) && h.expected + |packets| <= U32_MAX
    requires ReplayAll(h, limit, packets).Running?
    ensures var after := ReplayAll(h, limit, packets).h;
            && Balanced(after)
            && after.buffered == h.buffered
            && h.stats.replay <= after.stats.replay <= h.stats.replay + |packets|
            && after.expected == h.expected + (after.stats.replay - h.stats.replay)
            && after.stats == h.stats.(replay := after.stats.replay, processed := after.stats.processed)
            && (!LimitReached(after, limit) ==> after.stats.replay == h.stats.replay + |packets|)
    decreases |packets|
  {
    hide ParsePacket, Process;
    if packets != [] && !LimitReached(h, limit) {
      ProcessAdvances(h, limit, packets[0], FromReplay);
      ReplayAdvances(Process(h, limit, packets[0], FromReplay).h, limit, packets[1..]);
    }
  }

  /** Draining a buffer that holds just one packet, the expected one unless the limit stopped the replay short. */
  lemma DrainOne(h: Handler, limit: nat, seqNum: u32)
    requires Balanced(h) && h.buffered.Keys == {seqNum}
    requires !LimitReached(h, limit) ==> h.expected == seqNum
    requires Drain(h, limit).Running?
    ensures var after := Drain(h, limit).h;
            && Balanced(after)
            && (LimitReached(h, limit) ==> after == h)
            && (!LimitReached(h, limit) ==> && after.expected == Succ32(seqNum) && after.buffered == map[]
                                            && after.stats == Counted(h.stats, FromDrain))
  {
    hide Process;
    if !LimitReached(h, limit) {
      var taken := h.(buffered := h.buffered - {h.expected});
      assert taken.buffered.Keys == {} && taken.buffered == map[];
      ProcessAdvances(taken, limit, h.buffered[h.expected], FromDrain);
    }
  }

  /** The state at the head of the receive loop. */
  predicate AtLoopHead(h: Handler, limit: nat) {
    && Balanced(h)
    && WithinLimit(h, limit)
    && KeysMatch(h.buffered)
    && h.stats.replayRequests == h.stats.outOfOrder
    && h.stats.outOfOrder == h.stats.drain + |h.buffered|
    && |h.buffered| <= 1
    && (!LimitReached(h, limit) ==> h.buffered == map[])
  }

  /** How much of a parked packet's gap the limit has left unreplayed. */
  function Missing(h: Handler): int {
    if h.buffered.Keys == {} then 0 else FirstKey(h.buffered.Keys) - h.expected
  }

  /** The handler has dealt with packet `seqNum`: it stands just past it, or the limit has left it parked. */
  predicate UpTo(h: Handler, seqNum: u32) {
    if h.buffered.Keys == {} then h.expected == Succ32(seqNum)
    else h.buffered.Keys == {seqNum} && h.expected <= seqNum
  }

  /** A gap handled from an empty buffer asks for exactly the missing range, without underflow, replays it
      and drains the one parked packet, or leaves that packet parked where the limit cut the replay short. */
  lemma GapHandled(h: Handler, limit: nat, seqNum: u32, bytes: Bytes, recover: Recover)
    requires AtLoopHead(h, limit) && !LimitReached(h, limit)
    requires SequencedAs(bytes, seqNum) && seqNum > h.expected
    ensures Buffer(h, seqNum, bytes).buffered.Keys == {seqNum}
    ensures GapEnd(Buffer(h, seqNum, bytes).buffered) == seqNum - 1
    ensures OnDatagram(h, limit, bytes, recover)
         == RequestReplay(Buffer(h, seqNum, bytes), limit, h.expected, seqNum - 1, recover)
    ensures var r := OnDatagram(h, limit, bytes, recover);
            r.Running? ==>
              && AtLoopHead(r.h, limit)
              && UpTo(r.h, seqNum)
              && r.h.stats.replay + Missing(r.h) == h.stats.replay + (seqNum - h.expected)
  {
    hide OnDatagram, RequestReplay, GapEnd, SequencedAs, KeysMatch, Balanced, UpTo, Missing;
    GapAsked(h, limit, seqNum, bytes, recover);
    if OnDatagram(h, limit, bytes, recover).Running? {
      GapReplayed(h, limit, seqNum, bytes, recover);
    }
  }

  lemma GapAsked(h: Handler, limit: nat, seqNum: u32, bytes: Bytes, recover: Recover)
    requires h.buffered == map[] && SequencedAs(bytes, seqNum) && seqNum > h.expected
    ensures Buffer(h, seqNum, bytes).buffered.Keys == {seqNum}
    ensures GapEnd(Buffer(h, seqNum, bytes).buffered) == seqNum - 1
    ensures OnDatagram(h, limit, bytes, recover)
         == RequestReplay(Buffer(h, seqNum, bytes), limit, h.expected, seqNum - 1, recover)
  {
    hide ParsePacket, DecodeSeqNum, Process, Drain, RequestReplay, FirstKey;
    var parked := Buffer(h, seqNum, bytes);
    assert parked.buffered.Keys == {seqNum};
    assert FirstKey(parked.buffered.Keys) == seqNum;
    assert (seqNum + U32_MAX) % 0x1_0000_0000 == seqNum - 1;
  }

  /** An empty range, or a limit already reached, asks for nothing. */
  lemma NothingAsked(h: Handler, limit: nat, startSeq: u32, endSeq: u32, recover: Recover)
    requires startSeq > endSeq || LimitReached(h, limit)
    ensures RequestReplay(h, limit, startSeq, endSeq, recover) == Running(h)
  {
  }

  lemma GapReplayed(h: Handler, limit: nat, seqNum: u32, bytes: Bytes, recover: Recover)
    requires AtLoopHead(h, limit) && !LimitReached(h, limit)
    requires SequencedAs(bytes, seqNum) && seqNum > h.expected
    requires RequestReplay(Buffer(h, seqNum, bytes), limit, h.expected, seqNum - 1, recover).Running?
    ensures var after := RequestReplay(Buffer(h, seqNum, bytes), limit, h.expected, seqNum - 1, recover).h;
            && AtLoopHead(after, limit)
            && UpTo(after, seqNum)
            && after.stats.replay + Missing(after) == h.stats.replay + (seqNum - h.expected)
  {
    hide ParsePacket, Process, ApplyMessages, ReplayAll, Drain;
    var parked := Buffer(h, seqNum, bytes);
    assert parked.buffered == map[seqNum := bytes];
    var asked := parked.(stats := parked.stats.(replayRequests := parked.stats.replayRequests + 1));
    var packets := recover(h.expected, seqNum - 1).value;
    RequestWithinLimit(parked, limit, h.expected, seqNum - 1, recover);
    ReplayAdvances(asked, limit, packets);
    var replayed := ReplayAll(asked, limit, packets).h;
    DrainOne(replayed, limit, seqNum);
  }

  /** One turn of the receive loop, whatever arrives and whatever recovery answers: unless it throws, the
      loop head is reached again with an empty buffer or with the limit reached. */
  lemma LoopHeadKept(h: Handler, limit: nat, bytes: Bytes, recover: Recover)
    requires AtLoopHead(h, limit) && !LimitReached(h, limit)
    requires OnDatagram(h, limit, bytes, recover).Running?
    ensures AtLoopHead(OnDatagram(h, limit, bytes, recover).h, limit)
  {
    match ParsePacket(bytes)
    case None =>
    case Some(packet) =>
      var seqNum := DecodeSeqNum(packet.header);
      if seqNum > h.expected {
        GapHandled(h, limit, seqNum, bytes, recover);
      } else if seqNum == h.expected {
        ProcessAdvances(h, limit, bytes, FromLive);
        ProcessWithinLimit(h, limit, bytes, FromLive);
      }
  }

  /** Over whole runs of the receive loop on arbitrary traffic. */
  lemma {:induction false} RunsKeepLoopHead(h: Handler, limit: nat, arrivals: seq<Arrival>)
    requires AtLoopHead(h, limit)
    requires OnAll(h, limit, arrivals).Running?
    ensures AtLoopHead(OnAll(h, limit, arrivals).h, limit)
    decreases |arrivals|
  {
    if arrivals != [] && !LimitReached(h, limit) {
      LoopHeadKept(h, limit, arrivals[0].bytes, arrivals[0].recover);
      RunsKeepLoopHead(OnDatagram(h, limit, arrivals[0].bytes, arrivals[0].recover).h, limit, arrivals[1..]);
    }
  }

  lemma OnAllStarts(h: Handler, limit: nat)
    ensures OnAll(h, limit, []) == Running(h)
  {
  }

  /** The receive loop handles every datagram in turn until the limit is reached or one makes it throw. */
  lemma {:induction false} OnAllTakesNext(h: Handler, limit: nat, arrivals: seq<Arrival>, last: Arrival)
    ensures var before := OnAll(h, limit, arrivals);
            OnAll(h, limit, arrivals + [last]) ==
            if before.Thrown? || LimitReached(before.h, limit) then before
            else OnDatagram(before.h, limit, last.bytes, last.recover)
    decreases |arrivals|
  {
    hide OnDatagram;
    var longer := arrivals + [last];
    if arrivals == [] {
      assert longer[0] == last && longer[1..] == [];
      if !LimitReached(h, limit) {
        var r := OnDatagram(h, limit, last.bytes, last.recover);
        assert r.Running? ==> OnAll(r.h, limit, []) == r;
      }
    } else if !LimitReached(h, limit) {
      assert longer[0] == arrivals[0] && longer[1..] == arrivals[1..] + [last];
      var r := OnDatagram(h, limit, arrivals[0].bytes, arrivals[0].recover);
      if r.Running? {
        OnAllTakesNext(r.h, limit, arrivals[1..], last);
      }
    }
  }

  lemma FreshAtLoopHead(limit: nat)
    ensures AtLoopHead(FRESH_HANDLER, limit)
  {
    hide SequencedAs;
    assert FRESH_HANDLER.buffered == map[];
  }

  /** A fresh handler short of the limit and not thrown has nothing left in its buffer. */
  lemma FreshRunsEmptyBuffer(limit: nat, arrivals: seq<Arrival>)
    requires OnAll(FRESH_HANDLER, limit, arrivals).Running?
    ensures var h := OnAll(FRESH_HANDLER, limit, arrivals).h;
            !LimitReached(h, limit) ==> h.buffered == map[]
  {
    hide OnAll;
    FreshAtLoopHead(limit);
    RunsKeepLoopHead(FRESH_HANDLER, limit, arrivals);
  }

  lemma FreshRunsWithinLimit(limit: nat, arrivals: seq<Arrival>)
    ensures WithinLimit(OnAll(FRESH_HANDLER, limit, arrivals).h, limit)
  {
    hide OnAll;
    RunsStayWithinLimit(FRESH_HANDLER, limit, arrivals);
  }

  /** Even a run that throws has stayed within the limit. */
  lemma {:induction false} RunsStayWithinLimit(h: Handler, limit: nat, arrivals: seq<Arrival>)
    requires WithinLimit(h, limit)
    ensures WithinLimit(OnAll(h, limit, arrivals).h, limit)
    decreases |arrivals|
  {
    if arrivals != [] && !LimitReached(h, limit) {
      OnDatagramWithinLimit(h, limit, arrivals[0].bytes, arrivals[0].recover);
      match OnDatagram(h, limit, arrivals[0].bytes, arrivals[0].recover)
      case Thrown(_, _) =>
      case Running(after) => RunsStayWithinLimit(after, limit, arrivals[1..]);
    }
  }
}
