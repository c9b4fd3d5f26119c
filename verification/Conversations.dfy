/** Repeated replay requests down one connection, with packets stored in between. */
module Conversations {
  import opened Prelude
  import opened Histories
  import opened Sockets
  import opened Recovery

  type Range = (u32, u32)

  function RequestStream(ranges: seq<Range>): (b: Bytes)
    ensures |b| == 8 * |ranges|
  {
    if ranges == [] then []
    else RequestImage(ranges[0].0, ranges[0].1) + RequestStream(ranges[1..])
  }

  datatype Answered = Answered(answers: seq<seq<Bytes>>, rest: Bytes)

  /** The client reading one response after another. */
  function ReadInTurn(b: Bytes, ranges: seq<Range>): Result<Answered>
    decreases |ranges|
  {
    if ranges == [] then Ok(Answered([], b))
    else
      match ReadResponse(b, ranges[0].0, ranges[0].1)
      case Err(e) => Err(e)
      case Ok(reading) =>
        match ReadInTurn(reading.rest, ranges[1..])
        case Err(e) => Err(e)
        case Ok(later) => Ok(Answered([reading.packets] + later.answers, later.rest))
  }

  /** Each range as the history holds it when its request is looked up. */
  function Answers(h: History, waves: seq<Wave>, ranges: seq<Range>): seq<seq<Bytes>>
    decreases |ranges|
  {
    if ranges == [] then []
    else
      var now := Stored(h, FirstWave(waves));
      [RangePackets(now, ranges[0].0, ranges[0].1)] + Answers(now, LaterWaves(waves), ranges[1..])
  }

  /** No wave up to the `i`-th lookup stores under this number. */
  predicate Untouched(waves: seq<Wave>, i: int, k: u32) {
    forall j, m :: 0 <= j <= i && j < |waves| && 0 <= m < |waves[j]| ==> waves[j][m].0 != k
  }

  lemma UntouchedNow(h: History, waves: seq<Wave>, i: nat, k: u32)
    requires k in h && Untouched(waves, i, k)
    ensures var now := Stored(h, FirstWave(waves)); k in now && now[k] == h[k]
    ensures i > 0 ==> Untouched(LaterWaves(waves), i - 1, k)
  {
    hide Stored;
    StoredExactly(h, FirstWave(waves));
    assert NotStored(FirstWave(waves), k);
    var later := LaterWaves(waves);
    assert forall j :: 0 <= j < |later| ==> later[j] == waves[j + 1];
  }

  lemma {:induction false} KeptUntilAnswer(h: History, waves: seq<Wave>, ranges: seq<Range>, i: nat, k: u32)
    requires i < |ranges| && k in h && Untouched(waves, i, k)
    requires ranges[i].0 <= k <= ranges[i].1
    ensures |Answers(h, waves, ranges)| == |ranges| && h[k] in Answers(h, waves, ranges)[i]
    decreases i
  {
    hide RangePackets, Stored, Untouched, FirstWave, LaterWaves;
    var now := Stored(h, FirstWave(waves));
    UntouchedNow(h, waves, i, k);
    AnswersCount(h, waves, ranges);
    if i == 0 {
      AnswerHolds(now, ranges[0], k);
    } else {
      KeptUntilAnswer(now, LaterWaves(waves), ranges[1..], i - 1, k);
    }
  }

  lemma {:induction false} AnswersCount(h: History, waves: seq<Wave>, ranges: seq<Range>)
    ensures |Answers(h, waves, ranges)| == |ranges|
    decreases |ranges|
  {
    if ranges != [] {
      AnswersCount(Stored(h, FirstWave(waves)), LaterWaves(waves), ranges[1..]);
    }
  }

  lemma AnswerHolds(h: History, range: Range, k: u32)
    requires k in h && range.0 <= k <= range.1
    ensures h[k] in RangePackets(h, range.0, range.1)
  {
    hide RangePackets;
    RangeIsExact(h, range.0, range.1);
    var keys := RangeKeys(h, range.0, range.1);
    assert k in keys;
    var n :| 0 <= n < |keys| && keys[n] == k;
    assert RangePackets(h, range.0, range.1)[n] == h[k];
  }

  /** A packet stored before a request, and not overwritten by then, is in the answer to a range that covers it. */
  lemma {:induction false} StoredInTime(h: History, waves: seq<Wave>, ranges: seq<Range>, i: nat, j: nat, m: nat)
    requires i < |ranges| && j <= i && j < |waves| && m < |waves[j]|
    requires LastStore(waves[j], m) && Untouched(waves[j + 1..], i - j - 1, waves[j][m].0)
    requires ranges[i].0 <= waves[j][m].0 <= ranges[i].1
    ensures |Answers(h, waves, ranges)| == |ranges| && waves[j][m].1 in Answers(h, waves, ranges)[i]
    decreases j
  {
    hide RangePackets, Stored, Untouched, LastStore;
    var k := waves[j][m].0;
    var now, later := Stored(h, waves[0]), waves[1..];
    AnswersCount(h, waves, ranges);
    assert FirstWave(waves) == waves[0] && LaterWaves(waves) == later;
    if j > 0 {
      assert later[j - 1] == waves[j] && later[j..] == waves[j + 1..];
      StoredInTime(now, later, ranges[1..], i - 1, j - 1, m);
    } else {
      StoredExactly(h, waves[0]);
      assert k in now && now[k] == waves[0][m].1;
      if i == 0 {
        AnswerHolds(now, ranges[0], k);
      } else {
        KeptUntilAnswer(now, later, ranges[1..], i - 1, k);
      }
    }
  }

  predicate AllAnswerable(h: History, waves: seq<Wave>, ranges: seq<Range>)
    decreases |ranges|
  {
    ranges != [] ==>
      var now := Stored(h, FirstWave(waves));
      Answerable(now, ranges[0]) && AllAnswerable(now, LaterWaves(waves), ranges[1..])
  }

  lemma RepliesToStream(h: History, waves: seq<Wave>, ranges: seq<Range>)
    requires ranges != []
    ensures var now := Stored(h, FirstWave(waves));
            var later := Replies(now, LaterWaves(waves), RequestStream(ranges[1..]));
            var packets := RangePackets(now, ranges[0].0, ranges[0].1);
            Replies(h, waves, RequestStream(ranges)) ==
            ResponseImage(packets) + if Refuses(packets) then [] else later
  {
    hide RangePackets, ResponseImage, RequestImage, RequestStart, RequestEnd, Stored, FirstWave, LaterWaves, Refuses;
    var first, stream := ranges[0], RequestStream(ranges);
    assert stream[..8] == RequestImage(first.0, first.1) && stream[8..] == RequestStream(ranges[1..]);
    RequestReadBack(first.0, first.1);
  }

  lemma AnswerableIsSent(h: History, range: Range)
    requires Answerable(h, range)
    ensures !Refuses(RangePackets(h, range.0, range.1))
  {
    hide RangePackets;
    var packets := RangePackets(h, range.0, range.1);
    forall i | 0 <= i < |packets|
      ensures Sendable(packets[i])
    {
      assert Replayable(packets[i]);
    }
  }

  /** Any number of requests down one connection, whatever is stored between them: the client's readings stay
      aligned with the server's responses and use up the reply stream to the last byte. */
  lemma {:induction false} ConversationStaysAligned(h: History, waves: seq<Wave>, ranges: seq<Range>)
    requires AllAnswerable(h, waves, ranges)
    ensures ReadInTurn(Replies(h, waves, RequestStream(ranges)), ranges)
         == Ok(Answered(Answers(h, waves, ranges), []))
    decreases |ranges|
  {
    if ranges != [] {
      hide RangePackets, ResponseImage, ReadResponse, RequestImage, Stored, FirstWave, LaterWaves, Replies, Refuses;
      var now, first := Stored(h, FirstWave(waves)), ranges[0];
      RepliesToStream(h, waves, ranges);
      AnswerableIsSent(now, first);
      ResponseReadBack(now, first.0, first.1, Replies(now, LaterWaves(waves), RequestStream(ranges[1..])));
      ConversationStaysAligned(now, LaterWaves(waves), ranges[1..]);
    }
  }

  predicate InOrder(ranges: seq<Range>) {
    forall i :: 0 <= i < |ranges| ==> ranges[i].0 <= ranges[i].1
  }

  predicate ReadsRight(h: History, waves: seq<Wave>, ranges: seq<Range>) {
    var r := ReadInTurn(Replies(h, waves, RequestStream(ranges)), ranges);
    r.Ok? && r.value.answers == Answers(h, waves, ranges)
  }

  lemma UnanswerableMisread(h: History, waves: seq<Wave>, ranges: seq<Range>)
    requires ranges != [] && ranges[0].0 <= ranges[0].1 && !Answerable(Stored(h, FirstWave(waves)), ranges[0])
    ensures !ReadsRight(h, waves, ranges)
  {
    hide RangePackets, ResponseImage, ReadResponse, RequestStream, Stored, FirstWave, LaterWaves, Replies, Refuses,
      AllReplayable;
    var now, first := Stored(h, FirstWave(waves)), ranges[0];
    var packets := RangePackets(now, first.0, first.1);
    var rest := if Refuses(packets) then [] else Replies(now, LaterWaves(waves), RequestStream(ranges[1..]));
    RepliesToStream(h, waves, ranges);
    ResponseSpoilt(packets, rest, first.0, first.1);
    FirstAnswerWrong(ResponseImage(packets) + rest, ranges, packets);
    assert Answers(h, waves, ranges)[0] == packets;
  }

  lemma FirstAnswerWrong(b: Bytes, ranges: seq<Range>, packets: seq<Bytes>)
    requires ranges != []
    requires var first := ReadResponse(b, ranges[0].0, ranges[0].1); first.Ok? ==> first.value.packets != packets
    ensures var r := ReadInTurn(b, ranges); r.Ok? ==> |r.value.answers| > 0 && r.value.answers[0] != packets
  {
    hide ReadResponse;
  }

  lemma AnswerableReadsOn(h: History, waves: seq<Wave>, ranges: seq<Range>)
    requires ranges != [] && Answerable(Stored(h, FirstWave(waves)), ranges[0])
    ensures ReadsRight(h, waves, ranges)
       <==> ReadsRight(Stored(h, FirstWave(waves)), LaterWaves(waves), ranges[1..])
  {
    hide RangePackets, ResponseImage, ReadResponse, RequestStream, Stored, FirstWave, LaterWaves, Replies, Refuses;
    var now, first := Stored(h, FirstWave(waves)), ranges[0];
    var later := Replies(now, LaterWaves(waves), RequestStream(ranges[1..]));
    RepliesToStream(h, waves, ranges);
    AnswerableIsSent(now, first);
    ResponseReadBack(now, first.0, first.1, later);
    var r := ReadInTurn(Replies(h, waves, RequestStream(ranges)), ranges);
    var tail := ReadInTurn(later, ranges[1..]);
    assert r.Ok? <==> tail.Ok?;
    if r.Ok? {
      assert r.value.answers[1..] == tail.value.answers;
      assert Answers(h, waves, ranges)[1..] == Answers(now, LaterWaves(waves), ranges[1..]);
    }
  }

  /** The client gets every range as stored exactly when each is answerable: one oversized or unsendable packet, or
      2^32 packets at once, and what it reads is something else. */
  lemma {:induction false} ConversationExactly(h: History, waves: seq<Wave>, ranges: seq<Range>)
    requires InOrder(ranges)
    ensures ReadsRight(h, waves, ranges) <==> AllAnswerable(h, waves, ranges)
    decreases |ranges|
  {
    if ranges != [] {
      hide ReadsRight, Answerable, Stored, FirstWave, LaterWaves;
      var now := Stored(h, FirstWave(waves));
      if Answerable(now, ranges[0]) {
        AnswerableReadsOn(h, waves, ranges);
        ConversationExactly(now, LaterWaves(waves), ranges[1..]);
      } else {
        UnanswerableMisread(h, waves, ranges);
      }
    }
  }

  /** Reading `ranges` from `all` has produced `answers`, with `left` still to be read from `now`. */
  ghost predicate Continues(all: Bytes, ranges: seq<Range>, answers: seq<seq<Bytes>>, now: Bytes, left: seq<Range>) {
    ReadInTurn(all, ranges) ==
    match ReadInTurn(now, left)
    case Err(e) => Err(e)
    case Ok(later) => Ok(Answered(answers + later.answers, later.rest))
  }

  lemma ContinuesFromStart(all: Bytes, ranges: seq<Range>)
    ensures Continues(all, ranges, [], all, ranges)
  {
    match ReadInTurn(all, ranges)
    case Err(_) =>
    case Ok(later) =>
      assert [] + later.answers == later.answers;
  }

  lemma ContinuesOne(all: Bytes, ranges: seq<Range>, answers: seq<seq<Bytes>>, now: Bytes, left: seq<Range>)
    requires Continues(all, ranges, answers, now, left) && left != []
    ensures var r := ReadResponse(now, left[0].0, left[0].1);
            && (r.Err? ==> ReadInTurn(all, ranges) == Err(r.error))
            && (r.Ok? ==> Continues(all, ranges, answers + [r.value.packets], r.value.rest, left[1..]))
  {
    hide ReadResponse;
    match ReadResponse(now, left[0].0, left[0].1)
    case Err(_) =>
    case Ok(reading) =>
      match ReadInTurn(reading.rest, left[1..])
      case Err(_) =>
      case Ok(later) =>
        assert answers + ([reading.packets] + later.answers) == answers + [reading.packets] + later.answers;
  }

  /** The client asks for one range after another over one socket. */
  method RequestInTurn(client: Socket, ranges: seq<Range>) returns (r: Result<seq<seq<Bytes>>>)
    requires InOrder(ranges)
    modifies client
    ensures r.Ok? ==>
              && ReadInTurn(old(client.inbound), ranges) == Ok(Answered(r.value, client.inbound))
              && client.outbound == old(client.outbound) + RequestStream(ranges)
    ensures r.Err? && !IoError(r.error) ==> ReadInTurn(old(client.inbound), ranges) == Err(r.error)
    ensures r.Err? && IoError(r.error) ==>
              Budget(old(client.schedule)) <= |RequestStream(ranges)| + |old(client.inbound)|
  {
    hide ReadResponse, RequestImage, Budget;
    var answers: seq<seq<Bytes>> := [];
    ContinuesFromStart(client.inbound, ranges);
    for index := 0 to |ranges|
      invariant Continues(old(client.inbound), ranges, answers, client.inbound, ranges[index..])
      invariant client.outbound + RequestStream(ranges[index..]) == old(client.outbound) + RequestStream(ranges)
      invariant Budget(client.schedule) + 8 * index + |old(client.inbound)|
             >= Budget(old(client.schedule)) + |client.inbound|
    {
      ghost var left := ranges[index..];
      assert left[0] == ranges[index] && left[1..] == ranges[index + 1..];
      assert client.outbound + (RequestImage(left[0].0, left[0].1) + RequestStream(left[1..]))
          == client.outbound + RequestImage(left[0].0, left[0].1) + RequestStream(left[1..]);
      ContinuesOne(old(client.inbound), ranges, answers, client.inbound, left);
      var answer := RequestPackets(client, ranges[index].0, ranges[index].1);
      if answer.Err? {
        return Err(answer.error);
      }
      answers := answers + [answer.value];
    }
    assert ranges[|ranges|..] == [] && answers + [] == answers;
    return Ok(answers);
  }

  /** A whole conversation over two cut sockets, with stores before each lookup: the server serves the bytes the
      client sends, and the client reads the bytes the server sends. Unless a socket itself fails, the outcome is
      the one those bytes determine, and it is the ranges as stored at each request exactly when all of them are
      answerable. */
  method ConverseOverTcp(history: PacketHistory, waves: seq<Wave>, ranges: seq<Range>,
                         serverIo: seq<Io>, clientIo: seq<Io>)
    returns (r: Result<seq<seq<Bytes>>>)
    requires InOrder(ranges)
    modifies history
    ensures r.Ok? || !IoError(r.error) ==>
              && (r == Ok(Answers(old(history.packets), waves, ranges))
                  <==> AllAnswerable(old(history.packets), waves, ranges))
              && history.packets == HistoryAfter(old(history.packets), waves, RequestStream(ranges))
    ensures var reading := ReadInTurn(Replies(old(history.packets), waves, RequestStream(ranges)), ranges);
            && (r.Ok? ==> reading.Ok? && reading.value.answers == r.value)
            && (r.Err? && !IoError(r.error) ==> reading == Err(r.error))
    ensures var size := |RequestStream(ranges)| + |Replies(old(history.packets), waves, RequestStream(ranges))|;
            Budget(serverIo) > size && Budget(clientIo) > size ==> r.Ok? || !IoError(r.error)
  {
    hide Replies, ReadInTurn, Answers, AllAnswerable, HistoryAfter, Budget, InOrder;
    ghost var h := history.packets;
    var server := new Socket(RequestStream(ranges), serverIo);
    var served := HandleClient(server, history, waves);
    if served.Err? && served.error != ServerPacketSizeOutOfBounds {
      return Err(served.error);
    }
    assert server.outbound == Replies(h, waves, RequestStream(ranges));
    var client := new Socket(server.outbound, clientIo);
    r := RequestInTurn(client, ranges);
    ConversationExactly(h, waves, ranges);
    assert r.Ok? ==> client.outbound == RequestStream(ranges);
  }
}
