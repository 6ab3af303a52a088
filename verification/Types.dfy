/** The enumerations of headers/protocol.h. */
module Types {
  import opened Bytes

  /** The results of the codec that the modelled functions can return. */
  datatype FrameError = Success | ErrorLen

  const OPCODE_CONT: byte := 0x0
  const OPCODE_TEXT: byte := 0x1
  const OPCODE_BIN: byte := 0x2
  const OPCODE_CLOSE: byte := 0x8
  const OPCODE_PING: byte := 0x9
  const OPCODE_PONG: byte := 0xA

  datatype Option<+T> = None | Some(value: T)
}
