/** The TCP replay conversation: request, response count, and length-prefixed packets. */
module Recovery {
  import opened Prelude
  import opened BigEndian
  import opened Histories
  import opened Sockets

  const MAX_RECOVERY_PACKET_SIZE: nat := 4096

  // ---- What the server writes. ----

  function RequestImage(startSeq: u32, endSeq: u32): (b: Bytes)
    ensures |b| == 8
  {
    HostToNetwork32(startSeq) + HostToNetwork32(endSeq)
  }

  predicate Sendable(packet: Bytes) {
    0 < |packet| <= U16_MAX
  }

  function FrameImage(packet: Bytes): (b: Bytes)
    requires Sendable(packet)
    ensures |b| == 2 + |packet|
  {
    HostToNetwork16(|packet|) + packet
  }

  /** The frames sent before the server meets a packet it refuses, if any. */
  function Frames(packets: seq<Bytes>): Bytes {
    if packets == [] || !Sendable(packets[0]) then []
    else FrameImage(packets[0]) + Frames(packets[1..])
  }

  function CountImage(packets: seq<Bytes>): (b: Bytes)
    ensures |b| == 4
  {
    HostToNetwork32(|packets| % 0x1_0000_0000)
  }

  function ResponseImage(packets: seq<Bytes>): Bytes {
    CountImage(packets) + Frames(packets)
  }

  // ---- What the client makes of a byte stream that ends after `b`. ----

  datatype Reading = Reading(packets: seq<Bytes>, rest: Bytes)

  function ReadFrames(b: Bytes, count: nat): Result<Reading> {
    if count == 0 then Ok(Reading([], b))
    else if b == [] then Err(ConnectionClosed)
    else if |b| < 2 then Err(UnexpectedEof)
    else
      var size := NetworkToHost16(b[..2]);
      if size == 0 || size > MAX_RECOVERY_PACKET_SIZE then Err(InvalidPacketSize)
      else if b[2..] == [] then Err(ConnectionClosed)
      else if |b| < 2 + size then Err(UnexpectedEof)
      else
        match ReadFrames(b[2 + size..], count - 1)
        case Err(e) => Err(e)
        case Ok(reading) => Ok(Reading([b[2..2 + size]] + reading.packets, reading.rest))
  }

  function ReadResponse(b: Bytes, startSeq: u32, endSeq: u32): Result<Reading> {
    if startSeq > endSeq then Ok(Reading([], b))
    else if b == [] then Err(ConnectionClosed)
    else if |b| < 4 then Err(UnexpectedEof)
    else
      var count := NetworkToHost32(b[..4]);
      if count > endSeq - startSeq + 1 then Err(MorePacketsThanRequested)
      else ReadFrames(b[4..], count)
  }

  // ---- The two sides agree. ----

  predicate Replayable(packet: Bytes) {
    0 < |packet| <= MAX_RECOVERY_PACKET_SIZE
  }

  predicate AllReplayable(packets: seq<Bytes>) {
    forall i :: 0 <= i < |packets| ==> Replayable(packets[i])
  }

  lemma {:induction false} FramesReadBack(packets: seq<Bytes>, rest: Bytes)
    requires AllReplayable(packets)
    ensures ReadFrames(Frames(packets) + rest, |packets|) == Ok(Reading(packets, rest))
  {
    if packets == [] {
      assert Frames(packets) + rest == rest;
    } else {
      hide Frames, NetworkToHost16;
      assert Replayable(packets[0]);
      FirstFrame(packets, rest);
      FramesReadBack(packets[1..], rest);
      assert packets == [packets[0]] + packets[1..];
    }
  }

  /** One packet the client or the server refuses spoils the whole replay, whatever the server still writes;
      after a packet it refuses itself, that is nothing. */
  lemma {:induction false} FramesRefused(packets: seq<Bytes>, rest: Bytes)
    requires !AllReplayable(packets) && (Refuses(packets) ==> rest == [])
    ensures ReadFrames(Frames(packets) + rest, |packets|).Err?
  {
    hide FrameImage, NetworkToHost16;
    var p, tail := packets[0], packets[1..];
    if Sendable(p) {
      FirstFrame(packets, rest);
      if Replayable(p) {
        TailRefused(packets);
        FramesRefused(tail, rest);
      }
    }
  }

  lemma FirstFrame(packets: seq<Bytes>, rest: Bytes)
    requires packets != [] && Sendable(packets[0])
    ensures var b, size := Frames(packets) + rest, |packets[0]|;
            && |b| >= 2 + size
            && NetworkToHost16(b[..2]) == size
            && b[2..] != []
            && b[2..2 + size] == packets[0]
            && b[2 + size..] == Frames(packets[1..]) + rest
  {
    hide HostToNetwork16, NetworkToHost16;
    var p, tail := packets[0], Frames(packets[1..]);
    ReadBack16(|p|);
    CutFrame(HostToNetwork16(|p|), p, tail, rest);
    assert Frames(packets) == HostToNetwork16(|p|) + p + tail;
  }

  lemma CutFrame(size: Bytes, packet: Bytes, tail: Bytes, rest: Bytes)
    requires |size| == 2 && packet != []
    ensures var b := size + packet + tail + rest;
            && |b| >= 2 + |packet|
            && b[..2] == size && b[2..] != []
            && b[2..2 + |packet|] == packet && b[2 + |packet|..] == tail + rest
  {
    var b := size + packet + tail + rest;
    assert |b| == 2 + |packet| + |tail| + |rest|;
    assert b[2..] == packet + (tail + rest);
  }

  lemma TailRefused(packets: seq<Bytes>)
    requires !AllReplayable(packets) && Replayable(packets[0])
    ensures !AllReplayable(packets[1..])
    ensures Refuses(packets[1..]) ==> Refuses(packets)
  {
    var tail := packets[1..];
    var i :| 0 <= i < |packets| && !Replayable(packets[i]);
    assert tail[i - 1] == packets[i];
    if Refuses(tail) {
      var k :| 0 <= k < |tail| && !Sendable(tail[k]);
      assert packets[k + 1] == tail[k];
    }
  }

  /** The client reads back exactly the stored packets of the range and stops exactly at the response's end. */
  lemma ResponseReadBack(h: History, startSeq: u32, endSeq: u32, rest: Bytes)
    requires startSeq <= endSeq
    requires AllReplayable(RangePackets(h, startSeq, endSeq))
    requires |RangePackets(h, startSeq, endSeq)| <= U32_MAX
    ensures var packets := RangePackets(h, startSeq, endSeq);
            ReadResponse(ResponseImage(packets) + rest, startSeq, endSeq) == Ok(Reading(packets, rest))
  {
    PacketsReadBack(RangePackets(h, startSeq, endSeq), startSeq, endSeq, rest);
  }

  lemma PacketsReadBack(packets: seq<Bytes>, startSeq: u32, endSeq: u32, rest: Bytes)
    requires startSeq <= endSeq && |packets| <= endSeq - startSeq + 1
    requires AllReplayable(packets) && |packets| <= U32_MAX
    ensures ReadResponse(ResponseImage(packets) + rest, startSeq, endSeq) == Ok(Reading(packets, rest))
  {
    CountReadBack(packets);
    FramesReadBack(packets, rest);
    ReadAfterCount(CountImage(packets), Frames(packets), rest, startSeq, endSeq);
  }

  /** One request answered by the server and read by the client until the stream ends. */
  function Exchange(h: History, startSeq: u32, endSeq: u32): Result<seq<Bytes>> {
    match ReadResponse(ResponseImage(RangePackets(h, startSeq, endSeq)), startSeq, endSeq)
    case Err(e) => Err(e)
    case Ok(reading) => Ok(reading.packets)
  }

  predicate Answerable(h: History, range: (u32, u32)) {
    && range.0 <= range.1
    && AllReplayable(RangePackets(h, range.0, range.1))
    && |RangePackets(h, range.0, range.1)| <= U32_MAX
  }

  /** Recovery returns the stored range exactly when every packet in it has 1 to 4096 bytes
      and their number is below 2^32; in every other case the client gets something else. */
  lemma ExchangeExactly(h: History, startSeq: u32, endSeq: u32)
    ensures Exchange(h, startSeq, endSeq) == Ok(RangePackets(h, startSeq, endSeq))
       <==> startSeq > endSeq || Answerable(h, (startSeq, endSeq))
  {
    var packets := RangePackets(h, startSeq, endSeq);
    if startSeq <= endSeq {
      if AllReplayable(packets) && |packets| <= U32_MAX {
        ResponseReadBack(h, startSeq, endSeq, []);
        assert ResponseImage(packets) + [] == ResponseImage(packets);
      } else {
        ResponseSpoilt(packets, [], startSeq, endSeq);
        assert ResponseImage(packets) + [] == ResponseImage(packets);
      }
    }
  }

  /** A stored packet of more than 4096 bytes can be sent but not received: the client refuses its size. */
  lemma OversizedPacketRefused(seqNum: u32, packet: Bytes)
    requires MAX_RECOVERY_PACKET_SIZE < |packet| <= U16_MAX
    ensures Exchange(map[seqNum := packet], seqNum, seqNum) == Err(InvalidPacketSize)
  {
    var h := map[seqNum := packet];
    assert RangePackets(h, seqNum, seqNum) == [packet];
    assert Frames([packet]) == HostToNetwork16(|packet|) + packet;
    assert Frames([packet])[..2] == HostToNetwork16(|packet|);
    ReadBack16(|packet|);
    CountReadBack([packet]);
    ReadAfterCount(CountImage([packet]), Frames([packet]), [], seqNum, seqNum);
    assert ResponseImage([packet]) + [] == ResponseImage([packet]) && Frames([packet]) + [] == Frames([packet]);
  }

  lemma SmallestOversizedPacket()
    ensures Exchange(map[1 := seq(4097, _ => 0)], 1, 1) == Err(InvalidPacketSize)
  {
    hide Exchange;
    OversizedPacketRefused(1, seq(4097, _ => 0));
  }

  lemma ReadAfterCount(image: Bytes, frames: Bytes, rest: Bytes, startSeq: u32, endSeq: u32)
    requires |image| == 4 && startSeq <= endSeq
    ensures var count := NetworkToHost32(image);
            ReadResponse(image + frames + rest, startSeq, endSeq) ==
            if count > endSeq - startSeq + 1 then Err(MorePacketsThanRequested)
            else ReadFrames(frames + rest, count)
  {
    var b := image + frames + rest;
    assert b[..4] == image && b[4..] == frames + rest;
  }

  lemma CountReadBack(packets: seq<Bytes>)
    ensures |packets| <= U32_MAX ==> NetworkToHost32(CountImage(packets)) == |packets|
    ensures |packets| == U32_MAX + 1 ==> NetworkToHost32(CountImage(packets)) == 0
  {
    ReadBack32(|packets| % 0x1_0000_0000);
  }

  lemma ResponseSpoilt(packets: seq<Bytes>, rest: Bytes, startSeq: u32, endSeq: u32)
    requires startSeq <= endSeq && |packets| <= endSeq - startSeq + 1
    requires !AllReplayable(packets) || |packets| > U32_MAX
    requires Refuses(packets) ==> rest == []
    ensures var r := ReadResponse(ResponseImage(packets) + rest, startSeq, endSeq);
            r.Ok? ==> r.value.packets != packets
  {
    CountReadBack(packets);
    ReadAfterCount(CountImage(packets), Frames(packets), rest, startSeq, endSeq);
    if |packets| > U32_MAX {
      assert ReadFrames(Frames(packets) + rest, 0) == Ok(Reading([], Frames(packets) + rest));
    } else {
      FramesRefused(packets, rest);
    }
  }

  // ---- What the client accepts, from any peer. ----

  lemma FrameOfBytes(b: Bytes)
    requires |b| >= 2 && 0 < NetworkToHost16(b[..2]) && |b| >= 2 + NetworkToHost16(b[..2])
    ensures var size := NetworkToHost16(b[..2]);
            FrameImage(b[2..2 + size]) + b[2 + size..] == b
  {
    hide NetworkToHost16, HostToNetwork16;
    NetworkHostNetwork(b[..2], [0, 0, 0, 0], [0, 0, 0, 0, 0, 0, 0, 0]);
    CutInThree(b, 2, NetworkToHost16(b[..2]));
  }

  lemma CutInThree(b: Bytes, first: nat, second: nat)
    requires first + second <= |b|
    ensures b[..first] + b[first..first + second] + b[first + second..] == b
  {
  }

  /** `ReadFrames` inverts `Frames` exactly: it returns `count` packets of 1 to 4096 bytes if and only if the bytes
      start with their frames. */
  lemma {:induction false} FramesReadExactly(b: Bytes, count: nat, packets: seq<Bytes>, rest: Bytes)
    ensures ReadFrames(b, count) == Ok(Reading(packets, rest))
       <==> |packets| == count && AllReplayable(packets) && b == Frames(packets) + rest
    decreases count
  {
    if |packets| == count && AllReplayable(packets) && b == Frames(packets) + rest {
      FramesReadBack(packets, rest);
    }
    if ReadFrames(b, count) == Ok(Reading(packets, rest)) {
      FramesReadOnly(b, count);
    }
  }

  lemma {:induction false} FramesReadOnly(b: Bytes, count: nat)
    requires ReadFrames(b, count).Ok?
    ensures var reading := ReadFrames(b, count).value;
            && |reading.packets| == count && AllReplayable(reading.packets)
            && b == Frames(reading.packets) + reading.rest
    decreases count
  {
    if count == 0 {
      assert Frames([]) + b == b;
    } else {
      hide FrameImage, NetworkToHost16;
      var size := NetworkToHost16(b[..2]);
      var packet, later := b[2..2 + size], b[2 + size..];
      FramesReadOnly(later, count - 1);
      var reading := ReadFrames(later, count - 1).value;
      FrameOfBytes(b);
      var packets := [packet] + reading.packets;
      assert packets[1..] == reading.packets;
      assert FrameImage(packet) + (Frames(reading.packets) + reading.rest)
          == FrameImage(packet) + Frames(reading.packets) + reading.rest;
    }
  }

  /** Whoever wrote the bytes, the client returns packets if and only if the bytes start with the response image of
      at most as many packets as were asked for, each of 1 to 4096 bytes. */
  lemma ReadResponseExactly(b: Bytes, startSeq: u32, endSeq: u32, packets: seq<Bytes>, rest: Bytes)
    requires startSeq <= endSeq
    ensures ReadResponse(b, startSeq, endSeq) == Ok(Reading(packets, rest))
       <==> && |packets| <= endSeq - startSeq + 1 && |packets| <= U32_MAX
            && AllReplayable(packets)
            && b == ResponseImage(packets) + rest
  {
    hide ReadResponse, ResponseImage, AllReplayable;
    if && |packets| <= endSeq - startSeq + 1 && |packets| <= U32_MAX
       && AllReplayable(packets)
       && b == ResponseImage(packets) + rest {
      PacketsReadBack(packets, startSeq, endSeq, rest);
    }
    if ReadResponse(b, startSeq, endSeq) == Ok(Reading(packets, rest)) {
      ResponseReadOnly(b, startSeq, endSeq);
    }
  }

  lemma ResponseReadOnly(b: Bytes, startSeq: u32, endSeq: u32)
    requires startSeq <= endSeq && ReadResponse(b, startSeq, endSeq).Ok?
    ensures var reading := ReadResponse(b, startSeq, endSeq).value;
            && |reading.packets| <= endSeq - startSeq + 1 && |reading.packets| <= U32_MAX
            && AllReplayable(reading.packets)
            && b == ResponseImage(reading.packets) + reading.rest
  {
    hide ReadFrames, Frames, AllReplayable, NetworkToHost32, HostToNetwork32;
    var reading := ReadResponse(b, startSeq, endSeq).value;
    FramesReadOnly(b[4..], NetworkToHost32(b[..4]));
    CountIs(b[..4], reading.packets);
    JoinsUp(b, CountImage(reading.packets), Frames(reading.packets), reading.rest);
  }

  lemma CountIs(b: Bytes, packets: seq<Bytes>)
    requires |b| == 4 && NetworkToHost32(b) == |packets|
    ensures CountImage(packets) == b
  {
    hide NetworkToHost32, HostToNetwork32;
    assert |packets| % 0x1_0000_0000 == NetworkToHost32(b);
    NetworkHostNetwork([0, 0], b, [0, 0, 0, 0, 0, 0, 0, 0]);
  }

  lemma JoinsUp(b: Bytes, head: Bytes, middle: Bytes, rest: Bytes)
    requires |b| >= 4 && b[..4] == head && b[4..] == middle + rest
    ensures b == head + middle + rest
  {
    assert b == b[..4] + b[4..];
  }

  /** What stops the client after some whole frames: the stream ends between or inside frames, or a size is bad. */
  lemma {:induction false} FramesStopAt(packets: seq<Bytes>, tail: Bytes, count: nat)
    requires AllReplayable(packets) && |packets| < count
    ensures var r := ReadFrames(Frames(packets) + tail, count);
            && (tail == [] ==> r == Err(ConnectionClosed))
            && (|tail| == 1 ==> r == Err(UnexpectedEof))
            && (|tail| >= 2 ==>
                  var size := NetworkToHost16(tail[..2]);
                  && (size == 0 || size > 4096 ==> r == Err(InvalidPacketSize))
                  && (0 < size <= 4096 && |tail| == 2 ==> r == Err(ConnectionClosed))
                  && (2 < |tail| < 2 + size && size <= 4096 ==> r == Err(UnexpectedEof)))
    decreases |packets|
  {
    if packets == [] {
      assert Frames(packets) + tail == tail;
    } else {
      hide Frames, NetworkToHost16;
      assert Replayable(packets[0]);
      FirstFrame(packets, tail);
      FramesStopAt(packets[1..], tail, count - 1);
    }
  }

  lemma TooManyRefused(b: Bytes, startSeq: u32, endSeq: u32)
    requires startSeq <= endSeq
    ensures ReadResponse(b, startSeq, endSeq) == Err(MorePacketsThanRequested)
       <==> |b| >= 4 && NetworkToHost32(b[..4]) > endSeq - startSeq + 1
  {
    if |b| >= 4 {
      FramesErrors(b[4..], NetworkToHost32(b[..4]));
    }
  }

  lemma {:induction false} FramesErrors(b: Bytes, count: nat)
    ensures var r := ReadFrames(b, count);
            r.Err? ==> r.error == ConnectionClosed || r.error == UnexpectedEof || r.error == InvalidPacketSize
    decreases count
  {
    hide NetworkToHost16;
    if count > 0 && |b| >= 2 {
      var size: nat := NetworkToHost16(b[..2]);
      if |b| >= 2 + size {
        FramesErrors(b[2 + size..], count - 1);
      }
    }
  }

  /** The server stops at the first packet it refuses, having sent those before it. */
  lemma {:induction false} FramesStopAtRefused(before: seq<Bytes>, refused: Bytes, after: seq<Bytes>)
    requires !Sendable(refused)
    ensures Frames(before + [refused] + after) == Frames(before)
  {
    hide FrameImage;
    var packets := before + [refused] + after;
    if before == [] {
      assert packets[0] == refused;
    } else {
      assert packets[1..] == before[1..] + [refused] + after;
      FramesStopAtRefused(before[1..], refused, after);
    }
  }

  /** A request is the two sequence numbers; a response is the count and then each packet after its size. */
  lemma RequestLayout(startSeq: u32, endSeq: u32)
    ensures RequestImage(startSeq, endSeq)[0..4] == HostToNetwork32(startSeq)
    ensures RequestImage(startSeq, endSeq)[4..8] == HostToNetwork32(endSeq)
  {
    hide HostToNetwork32;
  }

  lemma ResponseLayout(packets: seq<Bytes>)
    requires packets != [] && |packets| <= U32_MAX && Sendable(packets[0])
    ensures var b, size := ResponseImage(packets), |packets[0]|;
            && |b| >= 6 + size
            && b[0..4] == HostToNetwork32(|packets|)
            && b[4..6] == HostToNetwork16(size)
            && b[6..6 + size] == packets[0]
            && b[6 + size..] == Frames(packets[1..])
  {
    hide HostToNetwork16, HostToNetwork32;
    var p, tail := packets[0], Frames(packets[1..]);
    var count, size := HostToNetwork32(|packets|), HostToNetwork16(|p|);
    assert CountImage(packets) == count;
    assert Frames(packets) == size + p + tail;
    CutResponse(count, size, p, tail);
  }

  lemma CutResponse(count: Bytes, size: Bytes, packet: Bytes, tail: Bytes)
    requires |count| == 4 && |size| == 2
    ensures var b := count + (size + packet + tail);
            && |b| >= 6 + |packet|
            && b[0..4] == count && b[4..6] == size
            && b[6..6 + |packet|] == packet && b[6 + |packet|..] == tail
  {
    var b := count + (size + packet + tail);
    assert b == count + size + packet + tail;
  }

  // ---- The server loop. ----

  function RequestStart(b: Bytes): u32
    requires |b| == 8
  {
    NetworkToHost32(b[..4])
  }

  function RequestEnd(b: Bytes): u32
    requires |b| == 8
  {
    NetworkToHost32(b[4..])
  }

  predicate Refuses(packets: seq<Bytes>) {
    exists i :: 0 <= i < |packets| && !Sendable(packets[i])
  }

  /** What the publisher thread stores between two lookups. */
  type Wave = seq<(u32, Bytes)>

  function Stored(h: History, wave: Wave): History
    decreases |wave|
  {
    if wave == [] then h else Stored(h[wave[0].0 := wave[0].1], wave[1..])
  }

  function FirstWave(waves: seq<Wave>): Wave {
    if waves == [] then [] else waves[0]
  }

  function LaterWaves(waves: seq<Wave>): seq<Wave> {
    if waves == [] then [] else waves[1..]
  }

  lemma {:induction false} StoredLast(h: History, wave: Wave, seqNum: u32, packet: Bytes)
    ensures Stored(h, []) == h
    ensures Stored(h, wave + [(seqNum, packet)]) == Stored(h, wave)[seqNum := packet]
    decreases |wave|
  {
    var longer := wave + [(seqNum, packet)];
    if wave == [] {
      assert longer[1..] == [];
    } else {
      assert longer[1..] == wave[1..] + [(seqNum, packet)];
      StoredLast(h[wave[0].0 := wave[0].1], wave[1..], seqNum, packet);
    }
  }

  /** Entry `m` is the last one of its number in the wave. */
  predicate LastStore(wave: Wave, m: nat)
    requires m < |wave|
  {
    forall n :: m < n < |wave| ==> wave[n].0 != wave[m].0
  }

  predicate NotStored(wave: Wave, k: u32) {
    forall m :: 0 <= m < |wave| ==> wave[m].0 != k
  }

  /** After a wave every number holds the last packet the wave stored under it, or else what it held before. */
  lemma StoredExactly(h: History, wave: Wave)
    ensures forall m :: 0 <= m < |wave| && LastStore(wave, m) ==>
              wave[m].0 in Stored(h, wave) && Stored(h, wave)[wave[m].0] == wave[m].1
    ensures forall k: u32 :: NotStored(wave, k) ==>
              (k in Stored(h, wave) <==> k in h) && (k in h ==> Stored(h, wave)[k] == h[k])
  {
    hide Stored, LastStore, NotStored;
    forall m | 0 <= m < |wave| && LastStore(wave, m)
      ensures wave[m].0 in Stored(h, wave) && Stored(h, wave)[wave[m].0] == wave[m].1
    {
      HoldsLast(h, wave, m);
    }
    forall k: u32 | NotStored(wave, k)
      ensures (k in Stored(h, wave) <==> k in h) && (k in h ==> Stored(h, wave)[k] == h[k])
    {
      HoldsOld(h, wave, k);
    }
  }

  lemma StoredWave(h: History, wave: Wave)
    requires wave != []
    ensures var n := |wave| - 1;
            Stored(h, wave) == Stored(h, wave[..n])[wave[n].0 := wave[n].1]
  {
    hide Stored;
    var n := |wave| - 1;
    StoredLast(h, wave[..n], wave[n].0, wave[n].1);
    assert wave == wave[..n] + [(wave[n].0, wave[n].1)];
  }

  lemma {:induction false} HoldsLast(h: History, wave: Wave, m: nat)
    requires m < |wave| && LastStore(wave, m)
    ensures wave[m].0 in Stored(h, wave) && Stored(h, wave)[wave[m].0] == wave[m].1
    decreases |wave|
  {
    hide Stored, LastStore;
    StoredWave(h, wave);
    if m < |wave| - 1 {
      LastOfShorter(wave, m);
      HoldsLast(h, wave[..|wave| - 1], m);
    }
  }

  lemma {:induction false} HoldsOld(h: History, wave: Wave, k: u32)
    requires NotStored(wave, k)
    ensures (k in Stored(h, wave) <==> k in h) && (k in h ==> Stored(h, wave)[k] == h[k])
    decreases |wave|
  {
    if wave != [] {
      hide Stored, NotStored;
      StoredWave(h, wave);
      NotStoredShorter(wave, k);
      HoldsOld(h, wave[..|wave| - 1], k);
    }
  }

  lemma NotStoredShorter(wave: Wave, k: u32)
    requires wave != [] && NotStored(wave, k)
    ensures NotStored(wave[..|wave| - 1], k) && k != wave[|wave| - 1].0
  {
  }

  lemma LastOfShorter(wave: Wave, m: nat)
    requires m + 1 < |wave| && LastStore(wave, m)
    ensures LastStore(wave[..|wave| - 1], m) && wave[m].0 != wave[|wave| - 1].0
  {
  }

  /** Everything the server writes in answer to a stream of requests, when one wave of stores gets in before
      each lookup. */
  function Replies(h: History, waves: seq<Wave>, requests: Bytes): Bytes
    decreases |requests|
  {
    if |requests| < 8 then []
    else
      var now := Stored(h, FirstWave(waves));
      var packets := RangePackets(now, RequestStart(requests[..8]), RequestEnd(requests[..8]));
      ResponseImage(packets) + if Refuses(packets) then [] else Replies(now, LaterWaves(waves), requests[8..])
  }

  function HistoryAfter(h: History, waves: seq<Wave>, requests: Bytes): History
    decreases |requests|
  {
    if |requests| < 8 then h
    else
      var now := Stored(h, FirstWave(waves));
      var packets := RangePackets(now, RequestStart(requests[..8]), RequestEnd(requests[..8]));
      if Refuses(packets) then now else HistoryAfter(now, LaterWaves(waves), requests[8..])
  }

  predicate IoError(e: Error) {
    e == SocketFailure || e == ZeroByteSend
  }

  lemma FramesRest(sent: Bytes, packets: seq<Bytes>, index: nat)
    requires index < |packets| && Sendable(packets[index])
    ensures sent + Frames(packets[index..])
         == sent + HostToNetwork16(|packets[index]|) + packets[index] + Frames(packets[index + 1..])
    ensures |Frames(packets[index..])| == 2 + |packets[index]| + |Frames(packets[index + 1..])|
  {
    assert packets[index..][1..] == packets[index + 1..];
  }

  method SendFrames(socket: Socket, packets: seq<Bytes>) returns (r: Result<()>)
    modifies socket`outbound, socket`schedule
    ensures r.Ok? ==> !Refuses(packets)
    ensures r.Ok? || r == Err(ServerPacketSizeOutOfBounds) ==>
              socket.outbound == old(socket.outbound) + Frames(packets)
    ensures r.Err? ==> r.error == ServerPacketSizeOutOfBounds || IoError(r.error)
    ensures r == Err(ServerPacketSizeOutOfBounds) ==> Refuses(packets)
    ensures r.Ok? ==> Budget(socket.schedule) + |Frames(packets)| >= Budget(old(socket.schedule))
    ensures r.Err? && IoError(r.error) ==> Budget(old(socket.schedule)) < |Frames(packets)|
  {
    for index := 0 to |packets|
      invariant forall i :: 0 <= i < index ==> Sendable(packets[i])
      invariant socket.outbound + Frames(packets[index..]) == old(socket.outbound) + Frames(packets)
      invariant Budget(socket.schedule) + |Frames(packets)|
             >= Budget(old(socket.schedule)) + |Frames(packets[index..])|
    {
      var packet := packets[index];
      if packet == [] || |packet| > U16_MAX {
        assert Frames(packets[index..]) == [];
        return Err(ServerPacketSizeOutOfBounds);
      }
      FramesRest(socket.outbound, packets, index);
      var sent := SendAll(socket, HostToNetwork16(|packet|));
      if sent.Err? {
        return sent;
      }
      sent := SendAll(socket, packet);
      if sent.Err? {
        return sent;
      }
    }
    return Ok(());
  }

  method AnswerRequest(socket: Socket, history: PacketHistory, request: Bytes) returns (r: Result<()>)
    requires |request| == 8
    modifies socket`outbound, socket`schedule
    ensures var packets := RangePackets(history.packets, RequestStart(request), RequestEnd(request));
            && (r.Ok? ==> !Refuses(packets))
            && (r == Err(ServerPacketSizeOutOfBounds) ==> Refuses(packets))
            && (r.Ok? || r == Err(ServerPacketSizeOutOfBounds) ==>
                  socket.outbound == old(socket.outbound) + ResponseImage(packets))
            && (r.Ok? ==> Budget(socket.schedule) + |ResponseImage(packets)| >= Budget(old(socket.schedule)))
            && (r.Err? ==> r.error == ServerPacketSizeOutOfBounds || IoError(r.error))
            && (r.Err? && IoError(r.error) ==> Budget(old(socket.schedule)) < |ResponseImage(packets)|)
  {
    var packets := history.LookupRange(RequestStart(request), RequestEnd(request));
    var sent := SendAll(socket, CountImage(packets));
    if sent.Err? {
      return sent;
    }
    r := SendFrames(socket, packets);
    assert old(socket.outbound) + CountImage(packets) + Frames(packets)
        == old(socket.outbound) + (CountImage(packets) + Frames(packets));
  }

  method StoreWave(history: PacketHistory, wave: Wave)
    modifies history
    ensures history.packets == Stored(old(history.packets), wave)
  {
    ghost var start := history.packets;
    for index := 0 to |wave|
      invariant Stored(history.packets, wave[index..]) == Stored(start, wave)
    {
      assert wave[index..][1..] == wave[index + 1..];
      history.Store(wave[index].0, wave[index].1);
    }
  }

  /** Serve one client until it closes: every complete request is answered, in order, from the history as it is
      at that request. `waves` are the publisher thread's stores that get in before each lookup. */
  method HandleClient(socket: Socket, history: PacketHistory, waves: seq<Wave>) returns (r: Result<()>)
    modifies socket, history
    ensures r.Ok? || !IoError(r.error) ==>
              && socket.outbound == old(socket.outbound) + Replies(old(history.packets), waves, old(socket.inbound))
              && history.packets == HistoryAfter(old(history.packets), waves, old(socket.inbound))
    ensures r.Ok? ==> |old(socket.inbound)| % 8 == 0 && socket.inbound == []
    ensures r.Err? ==> r.error == ServerPacketSizeOutOfBounds || r.error == UnexpectedEof || IoError(r.error)
    ensures r == Err(UnexpectedEof) ==> |old(socket.inbound)| % 8 != 0
    ensures var size := |old(socket.inbound)| + |Replies(old(history.packets), waves, old(socket.inbound))|;
            r.Err? && IoError(r.error) ==> Budget(old(socket.schedule)) <= size
  {
    hide Replies, HistoryAfter, Stored, FirstWave, LaterWaves, RangePackets, ResponseImage, Refuses, RequestStart,
      RequestEnd, Budget;
    var left := waves;
    ghost var all := socket.outbound + Replies(history.packets, waves, socket.inbound);
    ghost var last := HistoryAfter(history.packets, waves, socket.inbound);
    ghost var size := |socket.inbound| + |Replies(history.packets, waves, socket.inbound)|;
    ghost var served := 0;
    while true
      invariant socket.outbound + Replies(history.packets, left, socket.inbound) == all
      invariant HistoryAfter(history.packets, left, socket.inbound) == last
      invariant |old(socket.inbound)| == |socket.inbound| + 8 * served
      invariant Budget(socket.schedule) + size
             >= Budget(old(socket.schedule)) + |socket.inbound| + |Replies(history.packets, left, socket.inbound)|
      decreases |socket.inbound|
    {
      ghost var before, h, sent := socket.inbound, history.packets, socket.outbound;
      var request := new u8[8];
      var received := RecvExactOrEof(socket, request);
      if received.Err? {
        RepliesToNothing(h, left, before);
        return Err(received.error);
      }
      if !received.value {
        RepliesToNothing(h, left, before);
        return Ok(());
      }
      assert request[..] == before[..8];
      StoreWave(history, FirstWave(left));
      RepliesStep(h, left, before, sent);
      r := AnswerRequest(socket, history, request[..]);
      if r.Err? {
        return;
      }
      left := LaterWaves(left);
      served := served + 1;
    }
  }

  lemma RepliesToNothing(h: History, waves: seq<Wave>, requests: Bytes)
    ensures |requests| < 8 ==> Replies(h, waves, requests) == [] && HistoryAfter(h, waves, requests) == h
  {
  }

  lemma RepliesStep(h: History, waves: seq<Wave>, requests: Bytes, sent: Bytes)
    requires |requests| >= 8
    ensures var now := Stored(h, FirstWave(waves));
            var packets := RangePackets(now, RequestStart(requests[..8]), RequestEnd(requests[..8]));
            var later := Replies(now, LaterWaves(waves), requests[8..]);
            && |Replies(h, waves, requests)| >= |ResponseImage(packets)|
            && (Refuses(packets) ==>
                  && sent + Replies(h, waves, requests) == sent + ResponseImage(packets)
                  && HistoryAfter(h, waves, requests) == now)
            && (!Refuses(packets) ==>
                  && sent + Replies(h, waves, requests) == sent + ResponseImage(packets) + later
                  && |Replies(h, waves, requests)| == |ResponseImage(packets)| + |later|
                  && HistoryAfter(h, waves, requests) == HistoryAfter(now, LaterWaves(waves), requests[8..]))
  {
    hide RangePackets, ResponseImage, Refuses, RequestStart, RequestEnd, Stored, FirstWave, LaterWaves;
  }

  // ---- The client call. ----

  method ReceiveFrames(socket: Socket, count: u32) returns (r: Result<seq<Bytes>>)
    modifies socket`inbound, socket`schedule
    ensures r.Ok? ==> ReadFrames(old(socket.inbound), count) == Ok(Reading(r.value, socket.inbound))
    ensures r.Err? && !IoError(r.error) ==> ReadFrames(old(socket.inbound), count) == Err(r.error)
    ensures r.Err? && IoError(r.error) ==> Budget(old(socket.schedule)) <= |old(socket.inbound)|
    ensures r.Ok? ==> Budget(socket.schedule) + |old(socket.inbound)| >= Budget(old(socket.schedule)) + |socket.inbound|
  {
    hide FromBe;
    var packets: seq<Bytes> := [];
    ContinuesFromStart(socket.inbound, count);
    for index := 0 to count
      invariant Continues(old(socket.inbound), count, packets, socket.inbound, count - index)
      invariant Budget(socket.schedule) + |old(socket.inbound)| >= Budget(old(socket.schedule)) + |socket.inbound|
      invariant |socket.inbound| <= |old(socket.inbound)|
    {
      ghost var before := socket.inbound;
      var frame := new u8[2];
      var received := RecvExactOrEof(socket, frame);
      if received.Err? {
        return Err(received.error);
      }
      if !received.value {
        return Err(ConnectionClosed);
      }
      var packetSize := NetworkToHost16(frame[..]);
      if packetSize == 0 || packetSize > MAX_RECOVERY_PACKET_SIZE {
        return Err(InvalidPacketSize);
      }
      var packet := new u8[packetSize];
      received := RecvExactOrEof(socket, packet);
      if received.Err? {
        return Err(received.error);
      }
      if !received.value {
        return Err(ConnectionClosed);
      }
      assert packet[..] == before[2..2 + packetSize];
      assert socket.inbound == before[2 + packetSize..];
      ContinuesOne(old(socket.inbound), count, packets, before, count - index);
      packets := packets + [packet[..]];
    }
    assert packets + [] == packets;
    return Ok(packets);
  }

  /** Reading `count` frames from `all` has produced `packets` and still has `left` frames to read from `now`. */
  ghost predicate Continues(all: Bytes, count: nat, packets: seq<Bytes>, now: Bytes, left: nat) {
    ReadFrames(all, count) ==
    match ReadFrames(now, left)
    case Err(e) => Err(e)
    case Ok(reading) => Ok(Reading(packets + reading.packets, reading.rest))
  }

  lemma ContinuesFromStart(all: Bytes, count: nat)
    ensures Continues(all, count, [], all, count)
  {
    match ReadFrames(all, count)
    case Err(_) =>
    case Ok(reading) =>
      assert [] + reading.packets == reading.packets;
  }

  lemma ContinuesOne(all: Bytes, count: nat, packets: seq<Bytes>, now: Bytes, left: nat)
    requires Continues(all, count, packets, now, left)
    requires left > 0 && |now| > 2
    requires 0 < NetworkToHost16(now[..2]) <= MAX_RECOVERY_PACKET_SIZE
    requires |now| >= 2 + NetworkToHost16(now[..2])
    ensures var size := NetworkToHost16(now[..2]);
            Continues(all, count, packets + [now[2..2 + size]], now[2 + size..], left - 1)
  {
    var size := NetworkToHost16(now[..2]);
    match ReadFrames(now[2 + size..], left - 1)
    case Err(_) =>
    case Ok(reading) =>
      assert packets + ([now[2..2 + size]] + reading.packets) == packets + [now[2..2 + size]] + reading.packets;
  }

  /** However the stream is cut, the call returns what `ReadResponse` says of its bytes; it fails on
      the socket itself only when the schedule holds too few transfers. */
  method RequestPackets(socket: Socket, startSeq: u32, endSeq: u32) returns (r: Result<seq<Bytes>>)
    modifies socket
    ensures startSeq > endSeq ==> r == Ok([]) && unchanged(socket)
    ensures startSeq <= endSeq && (r.Ok? || !IoError(r.error)) ==>
              socket.outbound == old(socket.outbound) + RequestImage(startSeq, endSeq)
    ensures r.Ok? ==> ReadResponse(old(socket.inbound), startSeq, endSeq) == Ok(Reading(r.value, socket.inbound))
    ensures r.Err? && !IoError(r.error) ==> ReadResponse(old(socket.inbound), startSeq, endSeq) == Err(r.error)
    ensures r.Err? && IoError(r.error) ==> Budget(old(socket.schedule)) <= 8 + |old(socket.inbound)|
    ensures r.Ok? ==>
              Budget(socket.schedule) + 8 + |old(socket.inbound)| >= Budget(old(socket.schedule)) + |socket.inbound|
  {
    if startSeq > endSeq {
      return Ok([]);
    }
    var sent := SendAll(socket, RequestImage(startSeq, endSeq));
    if sent.Err? {
      return Err(sent.error);
    }
    var response := new u8[4];
    var received := RecvExactOrEof(socket, response);
    if received.Err? {
      return Err(received.error);
    }
    if !received.value {
      return Err(ConnectionClosed);
    }
    var packetCount := NetworkToHost32(response[..]);
    if packetCount > endSeq - startSeq + 1 {
      return Err(MorePacketsThanRequested);
    }
    r := ReceiveFrames(socket, packetCount);
  }

  /** A whole replay: the client's request crosses to the server, the server's bytes cross back. However both
      directions are cut, the outcome is the one `Exchange` names, unless a socket itself fails. */
  method ReplayOverTcp(history: PacketHistory, startSeq: u32, endSeq: u32, serverIo: seq<Io>, clientIo: seq<Io>)
    returns (r: Result<seq<Bytes>>)
    requires startSeq <= endSeq
    ensures r.Ok? || !IoError(r.error) ==> r == Exchange(history.packets, startSeq, endSeq)
    ensures var size := |ResponseImage(RangePackets(history.packets, startSeq, endSeq))|;
            Budget(serverIo) > 8 + size && Budget(clientIo) > 8 + size ==> r.Ok? || !IoError(r.error)
    ensures r.Ok? && Answerable(history.packets, (startSeq, endSeq)) ==>
              r.value == RangePackets(history.packets, startSeq, endSeq)
  {
    hide RangePackets, ResponseImage, ReadResponse, RequestImage, RequestStart, RequestEnd;
    var server := new Socket(RequestImage(startSeq, endSeq), serverIo);
    var request := new u8[8];
    var received := RecvExactOrEof(server, request);
    if received.Err? {
      return Err(received.error);
    }
    assert received.value && request[..] == RequestImage(startSeq, endSeq)[..8] == RequestImage(startSeq, endSeq);
    RequestReadBack(startSeq, endSeq);
    var served := AnswerRequest(server, history, request[..]);
    if served.Err? && served.error != ServerPacketSizeOutOfBounds {
      return Err(served.error);
    }
    assert server.outbound == ResponseImage(RangePackets(history.packets, startSeq, endSeq));
    var client := new Socket(server.outbound, clientIo);
    r := RequestPackets(client, startSeq, endSeq);
    ExchangeExactly(history.packets, startSeq, endSeq);
  }

  lemma RequestReadBack(startSeq: u32, endSeq: u32)
    ensures RequestStart(RequestImage(startSeq, endSeq)) == startSeq
    ensures RequestEnd(RequestImage(startSeq, endSeq)) == endSeq
  {
    var request := RequestImage(startSeq, endSeq);
    assert request[..4] == HostToNetwork32(startSeq) && request[4..] == HostToNetwork32(endSeq);
    ReadBack32(startSeq);
    ReadBack32(endSeq);
  }
}
