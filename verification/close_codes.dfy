/** The close status enumeration of Foundation's `URLSessionWebSocketTask`,
    whose raw values are the status codes of section 7.4.1 of RFC 6455 plus
    `invalid` (0), and the engine's translation of a numeric code into it. */
module CloseCodes {
  import opened Base

  datatype CloseCode =
    | Invalid
    | NormalClosure
    | GoingAway
    | ProtocolError
    | UnsupportedData
    | NoStatusReceived
    | AbnormalClosure
    | InvalidFramePayloadData
    | PolicyViolation
    | MessageTooBig
    | MandatoryExtensionMissing
    | InternalServerError
    | TlsHandshakeFailure

  /** The raw values the enumeration recognises. */
  const RecognisedCodes: set<int> :=
    {0, 1000, 1001, 1002, 1003, 1005, 1006, 1007, 1008, 1009, 1010, 1011, 1015}

  /** `rawValue` of a close status; it always fits the engine's `UInt16`. */
  function RawValue(c: CloseCode): (r: UInt16)
    ensures r in RecognisedCodes
  {
    match c
    case Invalid => 0
    case NormalClosure => 1000
    case GoingAway => 1001
    case ProtocolError => 1002
    case UnsupportedData => 1003
    case NoStatusReceived => 1005
    case AbnormalClosure => 1006
    case InvalidFramePayloadData => 1007
    case PolicyViolation => 1008
    case MessageTooBig => 1009
    case MandatoryExtensionMissing => 1010
    case InternalServerError => 1011
    case TlsHandshakeFailure => 1015
  }

  /** `CloseCode(rawValue:)`: the status with the given raw value, if any. It is
      the inverse of `RawValue` on the recognised codes and fails elsewhere. */
  function FromRawValue(n: int): (r: Option<CloseCode>)
    ensures r.Some? <==> n in RecognisedCodes
    ensures r.Some? ==> RawValue(r.value) == n
  {
    if n == 0 then Some(Invalid)
    else if n == 1000 then Some(NormalClosure)
    else if n == 1001 then Some(GoingAway)
    else if n == 1002 then Some(ProtocolError)
    else if n == 1003 then Some(UnsupportedData)
    else if n == 1005 then Some(NoStatusReceived)
    else if n == 1006 then Some(AbnormalClosure)
    else if n == 1007 then Some(InvalidFramePayloadData)
    else if n == 1008 then Some(PolicyViolation)
    else if n == 1009 then Some(MessageTooBig)
    else if n == 1010 then Some(MandatoryExtensionMissing)
    else if n == 1011 then Some(InternalServerError)
    else if n == 1015 then Some(TlsHandshakeFailure)
    else None
  }

  /** Every status survives the trip through its raw value. */
  lemma RawValueRoundTrip(c: CloseCode)
    ensures FromRawValue(RawValue(c)) == Some(c)
  {
  }

  /** Distinct statuses have distinct raw values. */
  lemma RawValueInjective(c: CloseCode, d: CloseCode)
    requires RawValue(c) == RawValue(d)
    ensures c == d
  {
    RawValueRoundTrip(c);
    RawValueRoundTrip(d);
  }

  /** The status `stop(closeCode:)` hands the transport: the status with the
      same raw value when there is one, normal closure otherwise. Total on
      every `UInt16`, including 0, which names `invalid`. */
  function StopStatus(code: UInt16): (r: CloseCode)
    ensures code in RecognisedCodes ==> RawValue(r) == code
    ensures code !in RecognisedCodes ==> r == NormalClosure
  {
    FromRawValue(code).GetOr(NormalClosure)
  }
}
