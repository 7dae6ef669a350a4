/**
  Fixed-width integer domains of the C# code, its exceptions as an error
  datatype, and the unchecked conversions and truncating arithmetic that the
  readers rely on. Dafny integers are unbounded and Dafny's `/` and `%` are
  Euclidean, so every place where C# wraps or truncates goes through a
  function of this module.
*/
module Base {

  type byte = b: int | 0 <= b < 0x100
  type int16 = x: int | -0x8000 <= x < 0x8000
  type uint32 = x: int | 0 <= x < 0x1_0000_0000
  type int32 = x: int | -0x8000_0000 <= x < 0x8000_0000

  const TwoTo32: int := 0x1_0000_0000

  /** The exceptions the readers and the header throw, one per exception type. */
  datatype Error =
    | EndOfStream         // EndOfStreamException: a read got fewer bytes than it asked for
    | ObjectDisposed      // ObjectDisposedException: the reader was disposed
    | InvalidData         // InvalidDataException: unknown byte-order indicator
    | Argument            // ArgumentException: header text length, coordinate count
    | ArgumentOutOfRange  // ArgumentOutOfRangeException: value kind without a decoder
    | IndexOutOfRange     // IndexOutOfRangeException: array index outside the array
    | Overflow            // OverflowException: negative array length, int.MinValue / -1
    | SeekBeforeBegin     // IOException: a seek before the start of the stream

  /** A value, or the exception the C# code throws instead of returning it. */
  datatype Result<+T> = Ok(value: T) | Err(error: Error)

  /** A C# reference that may be null. */
  datatype Option<+T> = None | Some(value: T)

  /** The unchecked cast `(int)u` of a `uint`: the same 32 bits read as two's complement. */
  function ToInt32(u: uint32): (r: int32)
    ensures r == u || r == u - TwoTo32
    ensures 0 <= r <==> u < 0x8000_0000
  {
    if u < 0x8000_0000 then u else u - TwoTo32
  }

  /** The unchecked `uint` result of an integer expression: its value modulo 2^32. */
  function WrapU32(x: int): (r: uint32)
    ensures 0 <= x < TwoTo32 ==> r == x
  {
    x % TwoTo32
  }

  /** The unchecked `int` result of an integer expression: its value modulo 2^32, signed. */
  function Wrap32(x: int): (r: int32)
    ensures -0x8000_0000 <= x < 0x8000_0000 ==> r == x
  {
    ToInt32(WrapU32(x))
  }

  /** C#'s integer `/`: the quotient rounded toward zero. */
  function DivT(a: int, b: int): int
    requires b != 0
  {
    var a', b' := if a < 0 then -a else a, if b < 0 then -b else b;
    if (a < 0) != (b < 0) then -(a' / b') else a' / b'
  }

  /** C#'s integer `%` by a positive divisor: the remainder takes the sign of the dividend. */
  function RemT(a: int, b: int): (r: int)
    requires b > 0
    ensures -b < r < b
  {
    if a >= 0 then a % b else -((-a) % b)
  }

  /** `n` zero bytes. */
  function Zeros(n: nat): seq<byte>
  {
    seq(n, _ => 0)
  }

  /** Concatenation regrouped to the right. */
  lemma Regroup<T>(a: seq<T>, b: seq<T>, c: seq<T>)
    ensures (a + b) + c == a + (b + c)
  {
  }
}
