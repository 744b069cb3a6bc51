/** Small value types shared by every module of the engine model: an optional
    value (Swift's `Optional`), a byte, a byte string (Foundation's `Data`) and
    the 16-bit unsigned integer the engine uses for close codes. */
module Base {

  /** Swift's `T?`: either no value or exactly one. */
  datatype Option<+T> = None | Some(value: T) {

    /** The wrapped value, or `default` when there is none (Swift's `??`). */
    function GetOr(default: T): (r: T)
      ensures Some? ==> r == value
      ensures None? ==> r == default
    {
      match this
      case Some(v) => v
      case None => default
    }

    /** The value as a sequence of zero or one elements. */
    function ToSeq(): (r: seq<T>)
      ensures |r| <= 1
      ensures Some? <==> |r| == 1
      ensures Some? ==> r[0] == value
    {
      match this
      case Some(v) => [v]
      case None => []
    }
  }

  /** One octet. */
  type byte = x: int | 0 <= x < 0x100

  /** A byte string, Foundation's `Data`. */
  type Bytes = seq<byte>

  /** Swift's `UInt16`: the engine receives and reports close codes in this width. */
  type UInt16 = x: int | 0 <= x < 0x1_0000
}
