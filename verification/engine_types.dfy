/** Minimal mirrors of the library types the engine consumes and produces.
    Only the members the engine touches are declared. */
module EngineTypes {
  import opened Base

  /** The frame opcodes a caller may pass to `write(data:opcode:completion:)`. */
  datatype FrameOpCode = ContinueFrame | TextFrame | BinaryFrame | ConnectionClose | Ping | Pong

  /** `String(describing:)` of an opcode: its case name. */
  function OpCodeName(op: FrameOpCode): string {
    match op
    case ContinueFrame => "continueFrame"
    case TextFrame => "textFrame"
    case BinaryFrame => "binaryFrame"
    case ConnectionClose => "connectionClose"
    case Ping => "ping"
    case Pong => "pong"
  }

  /** The opcodes the engine can send. */
  predicate IsWritable(op: FrameOpCode) {
    op == TextFrame || op == BinaryFrame || op == Ping
  }

  /** The only error category the engine raises itself. */
  datatype ErrorType = SnCustom

  /** An error: one raised by the engine (`WSError`), or one the transport
      reported, which the engine passes on unchanged and is opaque here. */
  datatype Error =
    | WSError(kind: ErrorType, message: string, code: int)
    | TransportError(token: nat)

  /** `Result<Void, Error>`, what a write's completion receives. */
  datatype Outcome = Success | Failure(error: Error)

  /** The events an engine reports to its delegate. */
  datatype Event =
    | Connected(headers: map<string, string>)
    | Disconnected(reason: string, code: UInt16)
    | Text(text: string)
    | Binary(data: Bytes)
    | ErrorEvent(error: Error)

  /** A message the transport's `receive` delivers; `UnknownMessage` stands for
      any kind added to the platform later (the `@unknown default` case). */
  datatype Message = StringMessage(text: string) | DataMessage(data: Bytes) | UnknownMessage

  /** The result a `receive` completes with. */
  datatype ReceiveResult = Received(message: Message) | ReceiveFailed(error: Error)
}
