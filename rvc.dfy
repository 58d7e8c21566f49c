/**
 * The compile-time constants and the error type of the BNO08x UART-RVC crate.
 * An on-air frame is a two-byte header 0xAAAA followed by a 17-byte body; the
 * shared queue holds three whole frames and one byte more.
 */
module Rvc {
  import opened Rust
  import BBQueue

  /** Bytes in one on-air frame, header included. */
  const FrameSize: nat := 19
  /** The synchronisation header that opens every frame. */
  const Header: u16 := 0xAAAA
  /** Whole frames the shared queue is sized for. */
  const MaxAmountOfFrames: nat := 3
  /** Line rate of the sensor's serial output, in baud. */
  const BaudRate: nat := 115_200
  /** Capacity of the shared queue in bytes. */
  const BufferSize: nat := FrameSize * MaxAmountOfFrames + 1
  /** Bytes of a frame after its header: `FrameSize - 2` in the parser. */
  const BodySize: nat := FrameSize - 2

  /** The crate's only error: a failure reported by the queue. */
  datatype Error = BbqError(cause: BBQueue.Error)

  /** The header's high byte, `(Header >> 8) as u8`, which the parser expects first. */
  function HeaderHighByte(): (b: u8)
    ensures b == 0xAA
  {
    (Header / 0x100) as u8
  }

  /** The header's low byte, the truncating cast `Header as u8`, which the parser expects second. */
  function HeaderLowByte(): (b: u8)
    ensures b == 0xAA
  {
    (Header % 0x100) as u8
  }

  /** The two header bytes rebuild the header, high byte first. */
  lemma HeaderIsTwoBytes()
    ensures HeaderHighByte() as int * 0x100 + HeaderLowByte() as int == Header as int
    ensures HeaderHighByte() == HeaderLowByte()
  {
  }

  /** A frame is the two header bytes plus a 17-byte body. */
  lemma FrameLayout()
    ensures FrameSize == 2 + BodySize && BodySize == 17
  {
  }

  /** The queue is 58 bytes: three whole frames fit, a fourth does not. */
  lemma BufferHoldsThreeFrames()
    ensures BufferSize == 58
    ensures MaxAmountOfFrames * FrameSize < BufferSize < (MaxAmountOfFrames + 1) * FrameSize
  {
  }
}
