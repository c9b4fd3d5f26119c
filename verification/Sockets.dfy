/** TCP byte streams that move in arbitrary pieces, and the loops that move exact amounts over them. */
module Sockets {
  import opened Prelude

  /** The fate of one system call: `EINTR`, an error, no progress, or a transfer of about `size` bytes. */
  datatype Io = Interrupted | Fault | Stall | Moves(size: nat)

  datatype SysCall = Failed(interrupted: bool) | Count(n: nat)

  /** How many calls still move data before the schedule reaches an error or runs out. */
  function Budget(schedule: seq<Io>): nat {
    if schedule == [] then 0
    else match schedule[0]
      case Interrupted => Budget(schedule[1..])
      case Fault => 0
      case Stall => 0
      case Moves(_) => 1 + Budget(schedule[1..])
  }

  function Clamp(size: nat, available: nat): (n: nat)
    requires available > 0
    ensures 1 <= n <= available && (1 <= size <= available ==> n == size)
  {
    if size == 0 then 1 else if size > available then available else size
  }

  /** One end of a connection. `inbound` is everything the peer sends before closing its side. */
  class Socket {
    var inbound: Bytes
    var outbound: Bytes
    var schedule: seq<Io>

    constructor (inbound: Bytes, schedule: seq<Io>)
      ensures this.inbound == inbound && outbound == [] && this.schedule == schedule
    {
      this.inbound, this.outbound, this.schedule := inbound, [], schedule;
    }

    method NextIo() returns (io: Io)
      modifies this`schedule
      ensures old(schedule) == [] ==> io == Fault && schedule == []
      ensures old(schedule) != [] ==> io == old(schedule)[0] && schedule == old(schedule)[1..]
    {
      if schedule == [] {
        return Fault;
      }
      io, schedule := schedule[0], schedule[1..];
    }

    /** `send`: hands over some prefix of `data`. */
    method Send(data: Bytes) returns (r: SysCall)
      requires data != []
      modifies this`outbound, this`schedule
      ensures |schedule| <= |old(schedule)|
      ensures r.Count? ==> r.n <= |data| && outbound == old(outbound) + data[..r.n]
      ensures r.Failed? ==> outbound == old(outbound)
      ensures r.Count? && r.n > 0 ==> Budget(schedule) + 1 == Budget(old(schedule))
      ensures r == Failed(true) ==> Budget(schedule) == Budget(old(schedule)) && |schedule| < |old(schedule)|
      ensures r == Failed(false) || r == Count(0) ==> Budget(old(schedule)) == 0
    {
      var io := NextIo();
      match io {
        case Interrupted => return Failed(true);
        case Fault => return Failed(false);
        case Stall => return Count(0);
        case Moves(size) =>
          var n := Clamp(size, |data|);
          outbound := outbound + data[..n];
          return Count(n);
      }
    }

    /** `recv`: fills part of the buffer from the stream; zero bytes means the peer has closed. */
    method Recv(buffer: array<u8>, offset: nat, size: nat) returns (r: SysCall)
      requires offset + size <= buffer.Length && size > 0
      modifies this`inbound, this`schedule, buffer
      ensures |schedule| <= |old(schedule)|
      ensures r.Count? ==> && r.n <= size && r.n <= |old(inbound)| && inbound == old(inbound)[r.n..]
                           && buffer[..offset + r.n] == old(buffer[..offset]) + old(inbound)[..r.n]
                           && (r.n == 0 ==> old(inbound) == [])
      ensures r.Failed? ==> inbound == old(inbound) && buffer[..] == old(buffer[..])
      ensures r.Count? ==> Budget(schedule) + 1 == Budget(old(schedule))
      ensures r == Failed(true) ==> Budget(schedule) == Budget(old(schedule)) && |schedule| < |old(schedule)|
      ensures r == Failed(false) ==> Budget(old(schedule)) == 0
    {
      var io := NextIo();
      match io {
        case Interrupted => return Failed(true);
        case Fault => return Failed(false);
        case Stall => return Failed(false);
        case Moves(wanted) =>
          if inbound == [] {
            return Count(0);
          }
          var n := Clamp(wanted, if size < |inbound| then size else |inbound|);
          forall i | 0 <= i < n {
            buffer[offset + i] := inbound[i];
          }
          inbound := inbound[n..];
          return Count(n);
      }
    }
  }

  /** Whatever the pieces, `data` goes out whole and in order; a failure has sent a proper prefix of it. */
  method SendAll(socket: Socket, data: Bytes) returns (r: Result<()>)
    modifies socket`outbound, socket`schedule
    ensures r.Ok? ==> socket.outbound == old(socket.outbound) + data
    ensures r.Ok? ==> Budget(socket.schedule) + |data| >= Budget(old(socket.schedule))
    ensures r.Err? ==> r.error == SocketFailure || r.error == ZeroByteSend
    ensures r.Err? ==> Budget(old(socket.schedule)) < |data|
    ensures r.Err? ==> exists n :: 0 <= n < |data| && socket.outbound == old(socket.outbound) + data[..n]
  {
    var cursor := 0;
    var remaining := |data|;
    while remaining > 0
      invariant 0 <= cursor <= |data| && cursor + remaining == |data|
      invariant socket.outbound == old(socket.outbound) + data[..cursor]
      invariant Budget(socket.schedule) + cursor >= Budget(old(socket.schedule))
      decreases remaining, |socket.schedule|
    {
      ghost var before := socket.outbound;
      var sent := socket.Send(data[cursor..]);
      if sent.Failed? {
        if sent.interrupted {
          continue;
        }
        return Err(SocketFailure);
      }
      if sent.n == 0 {
        return Err(ZeroByteSend);
      }
      assert data[..cursor] + data[cursor..][..sent.n] == data[..cursor + sent.n];
      cursor := cursor + sent.n;
      remaining := remaining - sent.n;
    }
    return Ok(());
  }

  /** Fills the whole buffer with the next bytes of the stream, or reports a clean end of stream. */
  method RecvExactOrEof(socket: Socket, buffer: array<u8>) returns (r: Result<bool>)
    modifies socket`inbound, socket`schedule, buffer
    ensures r == Ok(true) ==> && buffer.Length <= |old(socket.inbound)|
                              && buffer[..] == old(socket.inbound)[..buffer.Length]
                              && socket.inbound == old(socket.inbound)[buffer.Length..]
                              && Budget(socket.schedule) + buffer.Length >= Budget(old(socket.schedule))
    ensures r == Ok(false) ==> old(socket.inbound) == [] && buffer.Length > 0 && socket.inbound == []
    ensures r.Err? ==> r.error == UnexpectedEof || r.error == SocketFailure
    ensures r == Err(UnexpectedEof) ==> 0 < |old(socket.inbound)| < buffer.Length
    ensures r == Err(SocketFailure) ==> && Budget(old(socket.schedule)) < buffer.Length
                                        && Budget(old(socket.schedule)) <= |old(socket.inbound)|
  {
    var receivedTotal := 0;
    while receivedTotal < buffer.Length
      invariant receivedTotal <= buffer.Length && receivedTotal <= |old(socket.inbound)|
      invariant buffer[..receivedTotal] == old(socket.inbound)[..receivedTotal]
      invariant socket.inbound == old(socket.inbound)[receivedTotal..]
      invariant Budget(socket.schedule) + receivedTotal >= Budget(old(socket.schedule))
      decreases buffer.Length - receivedTotal, |socket.schedule|
    {
      var received := socket.Recv(buffer, receivedTotal, buffer.Length - receivedTotal);
      if received.Failed? {
        if received.interrupted {
          continue;
        }
        return Err(SocketFailure);
      }
      if received.n == 0 {
        if receivedTotal == 0 {
          return Ok(false);
        }
        return Err(UnexpectedEof);
      }
      ghost var all := old(socket.inbound);
      assert all[..receivedTotal] + all[receivedTotal..][..received.n] == all[..receivedTotal + received.n];
      assert all[receivedTotal..][received.n..] == all[receivedTotal + received.n..];
      receivedTotal := receivedTotal + received.n;
    }
    return Ok(true);
  }
}
