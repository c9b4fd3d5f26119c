/** The publisher's packet history and the inclusive range queries the recovery server answers from it. */
module Histories {
  import opened Prelude

  type History = map<u32, Bytes>

  /** The stored packets with keys in `start..end` inclusive, by ascending key. */
  function RangePackets(h: History, start: nat, end: int): (packets: seq<Bytes>)
    requires end <= U32_MAX
    ensures |packets| <= if start > end then 0 else end - start + 1
    decreases end
  {
    if start > end then []
    else RangePackets(h, start, end - 1) + if end in h then [h[end]] else []
  }

  /** The stored keys in `start..end` inclusive. */
  ghost function RangeKeys(h: History, start: nat, end: int): seq<u32>
    requires end <= U32_MAX
    decreases end
  {
    if start > end then []
    else RangeKeys(h, start, end - 1) + if end in h then [end] else []
  }

  /** A range query returns the packets of exactly the stored keys in the closed range, ascending, once each. */
  lemma {:induction false} RangeIsExact(h: History, start: nat, end: int)
    requires end <= U32_MAX
    ensures var keys := RangeKeys(h, start, end);
            && (forall k: u32 :: k in keys <==> start <= k <= end && k in h)
            && (forall i, j :: 0 <= i < j < |keys| ==> keys[i] < keys[j])
            && |RangePackets(h, start, end)| == |keys|
            && (forall i :: 0 <= i < |keys| ==> keys[i] in h && RangePackets(h, start, end)[i] == h[keys[i]])
    decreases end
  {
    if start <= end {
      RangeIsExact(h, start, end - 1);
      var before := RangeKeys(h, start, end - 1);
      forall i | 0 <= i < |before|
        ensures before[i] < end
      {
        assert before[i] in before;
      }
    }
  }

  /** Later stores outside the range do not change the answer. */
  lemma {:induction false} RangeDependsOnRange(h: History, g: History, start: nat, end: int)
    requires end <= U32_MAX
    requires forall k: u32 :: start <= k <= end ==> (k in h <==> k in g) && (k in h ==> h[k] == g[k])
    ensures RangePackets(h, start, end) == RangePackets(g, start, end)
    decreases end
  {
    if start <= end {
      RangeDependsOnRange(h, g, start, end - 1);
    }
  }

  /** When the whole range is stored, the answer lists it without holes. */
  lemma {:induction false} FullRange(h: History, start: nat, end: int)
    requires end <= U32_MAX
    requires forall k: u32 :: start <= k <= end ==> k in h
    ensures start <= end ==> |RangePackets(h, start, end)| == end - start + 1
    ensures forall i :: 0 <= i < |RangePackets(h, start, end)| ==>
              start + i <= end && RangePackets(h, start, end)[i] == h[start + i]
    decreases end
  {
    var all := RangePackets(h, start, end);
    if start > end {
      assert all == [];
    } else {
      FullRange(h, start, end - 1);
      var before := RangePackets(h, start, end - 1);
      assert |before| == end - start;
      assert all == before + [h[end]];
      forall i | 0 <= i < |all|
        ensures start + i <= end && all[i] == h[start + i]
      {
        if i < |before| {
          assert all[i] == before[i];
        } else {
          assert start + i == end;
        }
      }
    }
  }

  class PacketHistory {
    var packets: History

    constructor ()
      ensures packets == map[]
    {
      packets := map[];
    }

    method Store(seqNum: u32, packet: Bytes)
      modifies this
      ensures packets == old(packets)[seqNum := packet]
    {
      packets := packets[seqNum := packet];
    }

    /** The counter is a 32-bit integer, so the loop leaves before it would wrap past `end == 2^32 - 1`. */
    method LookupRange(startSeq: u32, endSeq: u32) returns (found: seq<Bytes>)
      ensures found == RangePackets(packets, startSeq, endSeq)
    {
      found := [];
      if startSeq > endSeq {
        return;
      }
      var seqNum: u32 := startSeq;
      while seqNum <= endSeq
        invariant startSeq <= seqNum <= endSeq + 1
        invariant found == RangePackets(packets, startSeq, seqNum - 1)
        decreases endSeq - seqNum
      {
        if seqNum in packets {
          found := found + [packets[seqNum]];
        }
        if seqNum == U32_MAX {
          break;
        }
        seqNum := Succ32(seqNum);
      }
    }
  }
}
