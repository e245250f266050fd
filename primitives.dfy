/** Java's primitive integer types, bytes and ASCII, and the Option/Result wrappers used throughout. */
module Primitives {

  /** An octet on the wire. */
  newtype byte = b: int | 0 <= b < 256

  /** Java `int`: signed 32-bit. */
  newtype Int32 = x: int | -0x8000_0000 <= x < 0x8000_0000

  /** Java `long`: signed 64-bit. */
  newtype Int64 = x: int | -0x8000_0000_0000_0000 <= x < 0x8000_0000_0000_0000

  /** Java `char`: one UTF-16 code unit, an unpaired surrogate included. */
  newtype Char16 = c: int | 0 <= c < 0x1_0000

  /**
   * A Java `CharSequence`: a sequence of UTF-16 code units, so its `length()` counts a
   * character outside the Basic Multilingual Plane as two.
   */
  type JavaString = seq<Char16>

  const INT_MAX: int := 0x7fff_ffff
  /** `Long.MIN_VALUE`, the one long whose negation overflows. */
  const MIN_LONG: Int64 := -0x8000_0000_0000_0000
  const MAX_LONG: Int64 := 0x7fff_ffff_ffff_ffff

  const CR: byte := 13
  const LF: byte := 10
  const DOLLAR: byte := 36
  const STAR: byte := 42
  const MINUS: byte := 45
  const ZERO: byte := 48
  const NINE: byte := 57

  predicate IsAsciiText(s: string) {
    forall i :: 0 <= i < |s| ==> s[i] as int < 128
  }

  /** The US-ASCII encoding of a string literal (`String.getBytes(US_ASCII)`). */
  function Ascii(s: string): (r: seq<byte>)
    requires IsAsciiText(s)
    ensures |r| == |s|
    ensures forall i :: 0 <= i < |s| ==> r[i] as int == s[i] as int
  {
    seq(|s|, i requires 0 <= i < |s| => s[i] as int as byte)
  }

  datatype Option<+T> = None | Some(value: T)

  datatype Result<+T, +E> = Success(value: T) | Failure(error: E)
}
