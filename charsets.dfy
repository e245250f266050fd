/**
 * Character-set encoding as the bulk-string encoder uses it. The JDK's charset
 * encoder is abstracted as a total-or-failing function per charset; what is modelled
 * in detail is `encodeCharSeq`: the scratch `ByteBuffer` it allocates, fills and
 * flips, and the outcomes it turns into errors.
 */
module Charsets {
  import opened Primitives

  /** Why a string could not be encoded. */
  datatype CodingError =
    | Unencodable      // malformed or unmappable input (a CharacterCodingException)
    | BufferOverflow   // the output did not fit the scratch buffer (a BufferOverflowException)

  /**
   * A charset: whether it is UTF-8, the maximum bytes its encoder writes per char
   * (a whole number here), and the encoding it performs on UTF-16 code units (`None`
   * for malformed input, such as an unpaired surrogate, or unmappable input).
   */
  datatype Charset = Charset(isUtf8: bool, maxBytesPerChar: nat, encode: JavaString -> Option<seq<byte>>)

  /** The outcome of one `CharsetEncoder.encode` or `flush` call. */
  datatype CoderResult = Underflow | Overflow | Error

  /** `(int) (length * maxBytesPerChar)`: the scratch capacity, saturating at `Integer.MAX_VALUE`. */
  function MaxLength(cs: Charset, s: JavaString): (n: nat)
    ensures n <= INT_MAX
    ensures n == |s| * cs.maxBytesPerChar || n == INT_MAX < |s| * cs.maxBytesPerChar
  {
    if |s| * cs.maxBytesPerChar > INT_MAX then INT_MAX else |s| * cs.maxBytesPerChar
  }

  /** What `encodeCharSeq` yields: the encoded bytes, or the error it raises. */
  function Encode(cs: Charset, s: JavaString): Result<seq<byte>, CodingError>
  {
    match cs.encode(s)
    case None => Failure(Unencodable)
    case Some(bytes) => if |bytes| > MaxLength(cs, s) then Failure(BufferOverflow) else Success(bytes)
  }

  /** An encoding within `maxBytesPerChar` bytes per code unit always fits the scratch buffer. */
  lemma EncodeWithinCapacity(cs: Charset, s: JavaString)
    requires cs.encode(s).Some?
    requires |cs.encode(s).value| <= |s| * cs.maxBytesPerChar && |cs.encode(s).value| <= INT_MAX
    ensures Encode(cs, s) == Success(cs.encode(s).value)
  {
  }

  /**
   * A character outside the Basic Multilingual Plane is a surrogate pair, two chars:
   * under a two-bytes-per-char charset (UTF-16) a four-byte encoding of any such pair fits.
   */
  lemma SurrogatePairFits(cs: Charset, hi: Char16, lo: Char16, bytes: seq<byte>)
    requires 0xD800 <= hi < 0xDC00 && 0xDC00 <= lo < 0xE000
    requires cs.maxBytesPerChar == 2 && cs.encode([hi, lo]) == Some(bytes) && |bytes| == 4
    ensures MaxLength(cs, [hi, lo]) == 4
    ensures Encode(cs, [hi, lo]) == Success(bytes)
  {
  }

  /** A heap byte buffer: a backing array with a position and a limit. */
  class ByteBuffer {
    var data: array<byte>
    var position: nat
    var limit: nat

    ghost predicate Valid()
      reads this
    {
      position <= limit <= data.Length
    }

    /** `ByteBuffer.allocate(capacity)`: zero-filled, position 0, limit at capacity. */
    constructor Allocate(capacity: nat)
      ensures Valid() && fresh(data)
      ensures data.Length == capacity && position == 0 && limit == capacity
      ensures data[..] == seq(capacity, _ => 0)
    {
      data := new byte[capacity](_ => 0);
      position := 0;
      limit := capacity;
    }

    /** Relative bulk put: writes `src` at the position and advances past it. */
    method Put(src: seq<byte>)
      requires Valid() && |src| <= limit - position
      modifies data, this`position
      ensures Valid() && data == old(data) && limit == old(limit)
      ensures position == old(position) + |src|
      ensures data[..] == old(data[..position]) + src + old(data[position + |src|..])
    {
      var start := position;
      for k := 0 to |src|
        invariant position == start + k
        invariant forall j :: 0 <= j < data.Length ==>
          data[j] == if start <= j < start + k then src[j - start] else old(data[j])
      {
        data[position] := src[k];
        position := position + 1;
      }
      assert data[..] == old(data[..start]) + src + old(data[start + |src|..]);
    }

    /** `flip()`: the bytes written so far become the remaining bytes. */
    method Flip()
      requires Valid()
      modifies this`position, this`limit
      ensures Valid() && limit == old(position) && position == 0
    {
      limit := position;
      position := 0;
    }
  }

  /**
   * `charsetEncoder.reset().encode(in, out, true)`: encodes all of `s` into `out`,
   * reporting `Overflow` when the result does not fit and `Error` on unencodable input.
   */
  method EncodeInto(cs: Charset, s: JavaString, out: ByteBuffer) returns (result: CoderResult)
    requires out.Valid()
    modifies out.data, out`position
    ensures out.Valid() && out.data == old(out.data) && out.limit == old(out.limit)
    ensures result == Underflow <==> cs.encode(s).Some? && |cs.encode(s).value| <= old(out.limit - out.position)
    ensures result == Error <==> cs.encode(s).None?
    ensures result == Underflow ==> out.data[..out.position] == old(out.data[..out.position]) + cs.encode(s).value
  {
    match cs.encode(s)
    case None =>
      result := Error;
    case Some(bytes) =>
      if |bytes| > out.limit - out.position {
        result := Overflow;
      } else {
        ghost var before := out.data[..out.position];
        out.Put(bytes);
        assert out.data[..out.position] == before + bytes;
        result := Underflow;
      }
  }

  /**
   * `encodeCharSeq`: encodes `s` into a scratch buffer of `MaxLength` bytes and returns
   * the bytes written. Unencodable input and a too-small buffer are errors.
   */
  method EncodeCharSeq(cs: Charset, s: JavaString) returns (r: Result<seq<byte>, CodingError>)
    ensures r.Success? <==> cs.encode(s).Some? && |cs.encode(s).value| <= MaxLength(cs, s)
    ensures r.Success? ==> r.value == cs.encode(s).value
    ensures r.Failure? ==> (r.error == Unencodable <==> cs.encode(s).None?)
    ensures r == Encode(cs, s)
  {
    var maxLength := MaxLength(cs, s);
    var byteBuffer := new ByteBuffer.Allocate(maxLength);
    var coderResult := EncodeInto(cs, s, byteBuffer);
    // flush: the modelled encoders keep no state across calls, so flushing writes nothing.
    if coderResult == Error {
      return Failure(Unencodable);
    } else if coderResult == Overflow {
      return Failure(BufferOverflow);
    }
    byteBuffer.Flip();
    // the caller takes `remaining()` bytes from the start of `array()`
    var encodedLength := byteBuffer.limit - byteBuffer.position;
    r := Success(byteBuffer.data[..encodedLength]);
  }
}
