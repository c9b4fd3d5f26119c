/** Machine integers, byte strings and the result types shared by every component. */
module Prelude {

  type u8 = x: int | 0 <= x < 0x100
  type u16 = x: int | 0 <= x < 0x1_0000
  type u32 = x: int | 0 <= x < 0x1_0000_0000
  type u64 = x: int | 0 <= x < 0x1_0000_0000_0000_0000

  type Bytes = seq<u8>

  const U16_MAX: u16 := 0xFFFF
  const U32_MAX: u32 := 0xFFFF_FFFF

  /** `x + 1` on a 32-bit unsigned integer. */
  function Succ32(x: u32): u32 {
    (x + 1) % 0x1_0000_0000
  }

  datatype Option<+T> = None | Some(value: T)

  datatype Result<+T> = Ok(value: T) | Err(error: Error)

  /** One constructor for each `runtime_error` the programs can throw. */
  datatype Error =
    | TooManyMessages
    | PublisherBufferOverflow
    | MalformedPacket
    | SequenceMismatch
    | MalformedMessage
    | ReplayCountMismatch
    | SocketFailure
    | ZeroByteSend
    | UnexpectedEof
    | ConnectionClosed
    | ServerPacketSizeOutOfBounds
    | MorePacketsThanRequested
    | InvalidPacketSize
}
