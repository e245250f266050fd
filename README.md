# RESP encoders of RedRadishes, modelled in Dafny

RedRadishes is a Redis client. Its class `RespEncoders` builds the outbound half of
RESP, the Redis Serialization Protocol: array headers `*<n>\r\n` and bulk strings
`$<len>\r\n<payload>\r\n` for ints, longs, byte arrays and character strings. Every
encoder yields a `ConstExpr`, a tree of byte constants and `NEW_ARG` markers; the
client later writes it out and counts its arguments with `size()`.

This project models that class in three layers:

- `primitives.dfy` holds the machine types. Java `long` and `int` become the newtypes
  `Int64` and `Int32`, so every negation and narrowing is range-checked. A Java `char`
  is `Char16`, one UTF-16 code unit, and a `CharSequence` is a sequence of them, so
  lengths count code units as `length()` does and unpaired surrogates can be written.
  It also holds bytes, `Option` and `Result`.
- `decimals.dfy` is the reference ASCII decimal notation `Decimal`, as written by
  `Long.toString`. It comes with its inverse `ParseDecimal` and digit-count lemmas.
- `const_exprs.dfy` is the `ConstExpr` tree. Its meaning is the bytes it writes
  (`Serialize`) and its argument count (`Size`); `Compact` coalesces constant runs.
- `resp_wire.dfy` gives the exact wire forms `BulkString` and `ArrayHeader`. It also
  gives whole-message readers for both, which serve as inverses in round-trip lemmas.
- `charsets.dfy` models `encodeCharSeq`. It allocates a scratch `ByteBuffer` of
  `maxLength` bytes, encodes into it, turns coder errors into failures, and flips the
  buffer. The charset itself is an abstract encoding function.
- `resp_encoders.dfy` holds the encoders.
  - The imperative digit emission is written as methods: `toBytes` as an array filled
    right to left by a `while` loop, and `stringSize` as a `for` scan of `SIZE_TABLE`.
  - The table constants are included.
  - The combinator-built encoders are pure functions returning a `ConstExpr`.

The main results are listed below.

- `toBytes` writes the ASCII decimal of every nonzero long, including
  `Long.MIN_VALUE` through its constant.
- Every numeric fast path (1..9, 10..99, `Long.MIN_VALUE`) writes exactly what the
  general path writes. At 0 the one-digit fast path differs from the general path,
  which would write the NUL byte of `toBytes(0)`.
- The empty string writes `$0\r\n\r\n` without consulting the charset. That matches
  the encoding branches only for a charset that encodes the empty string as no bytes
  and whose up-front header agrees with it.
- Every encoder produces the exact RESP form. Bulk strings open exactly one argument
  and array headers open none.
- Reading each encoder's output back with the RESP readers returns the value that
  was encoded. For strings this holds when the header computed before encoding agrees
  with the encoded length.

## Model

| member | source | states |
|---|---|---|
| RespEncoders.ToBytes | core/src/main/java/redradishes/encoder/RespEncoders.java:144-161 | For every nonzero long the result is its ASCII decimal, `Long.MIN_VALUE` included. The length is the digit count of the magnitude plus one for a sign. The first byte is '-' exactly when the number is negative, and every other byte is a digit. For 0 the result is the single byte 0x00. |
| RespEncoders.FillDigits | core/src/main/java/redradishes/encoder/RespEncoders.java:155-159 | The digit loop writes exactly the digits of a positive number into the buffer after the sign slot, least significant last. It leaves the sign slot untouched and writes nothing for 0. |
| RespEncoders.ToBytesOf | core/src/main/java/redradishes/encoder/RespEncoders.java:144-161 | What `toBytes` returns, as a function: the decimal for nonzero input, `[0]` for 0, always 1 to 20 bytes. |
| RespEncoders.ToBytesOfZero | core/src/main/java/redradishes/encoder/RespEncoders.java:144-161 | As written, `toBytes(0)` is `[0]`, which differs from the notation "0" of `Long.toString(0)`. |
| RespEncoders.CorrectedToBytes | core/src/main/java/redradishes/encoder/RespEncoders.java:144-161 | With zero written as "0", the result is the ASCII decimal of every long, 1 to 20 bytes. |
| RespEncoders.StringSize | core/src/main/java/redradishes/encoder/RespEncoders.java:163-170 | For a non-negative long the result is its number of decimal digits. A negative input stops at the first entry and gives 1. The result always lies in 1..19. |
| RespEncoders.PowersLessOne | core/src/main/java/redradishes/encoder/RespEncoders.java:30 | The table built by iterating ×10 from 10 and subtracting one: entry `i` is 10^(i+1) − 1. |
| RespEncoders.SizeTableDigits | core/src/main/java/redradishes/encoder/RespEncoders.java:30 | `SIZE_TABLE[i]` has exactly `i + 1` digits, and the next number has `i + 2`. |
| RespEncoders.SizeTableIncreasing | core/src/main/java/redradishes/encoder/RespEncoders.java:30 | `SIZE_TABLE` is strictly increasing. |
| RespEncoders.DecimalsInRange | core/src/main/java/redradishes/encoder/RespEncoders.java:27-28 | `NUM_BYTES` has one entry per number of 10..99, and entry `i` is the decimal of `i + 10`. |
| RespEncoders.MinLongBytesIsDecimal | core/src/main/java/redradishes/encoder/RespEncoders.java:29 | The constant "-9223372036854775808" is the decimal of `Long.MIN_VALUE`. |
| RespEncoders.EmptyStringFastPathMatchesGeneral | core/src/main/java/redradishes/encoder/RespEncoders.java:55-57 | For a charset that encodes the empty string as no bytes and whose header agrees, `EMPTY_BULK_STRING` writes the same bytes as the length header and payload of the encoding branches, and the scratch buffer holds the empty encoding. |
| RespEncoders.MinLongBulkString | core/src/main/java/redradishes/encoder/RespEncoders.java:32-33 | `MIN_LONG_BULK_STRING` compacts to one span holding `20\r\n` and the decimal of `Long.MIN_VALUE`. |
| RespEncoders.EmptyBulkString | core/src/main/java/redradishes/encoder/RespEncoders.java:34 | `EMPTY_BULK_STRING` compacts to one span holding `0\r\n`, the body of the empty bulk string. |
| RespEncoders.CharConst | core/src/main/java/redradishes/encoder/RespEncoders.java:51-53 | A char is written as its low byte, the `(byte)` cast, and opens no argument. |
| RespEncoders.IntEnc | core/src/main/java/redradishes/encoder/RespEncoders.java:133-142 | On each branch (a digit byte, a `NUM_BYTES` entry, `toBytes`) the number encoder writes the decimal of `num` and opens no argument. |
| RespEncoders.Array | core/src/main/java/redradishes/encoder/RespEncoders.java:38 | `array()` writes exactly `*<count>\r\n` and opens no argument. It is one span that `compact` leaves unchanged. |
| RespEncoders.OneDigitAsBulkString | core/src/main/java/redradishes/encoder/RespEncoders.java:35 | For 0..9 the body `1\r\n<digit>` is the bulk-string body of the number's decimal. |
| RespEncoders.TwoDigitsAsBulkString | core/src/main/java/redradishes/encoder/RespEncoders.java:36-37 | For 10..99 the body `2\r\n<NUM_BYTES entry>` is the bulk-string body of the number's decimal. |
| RespEncoders.LongAsBulkString | core/src/main/java/redradishes/encoder/RespEncoders.java:124-131 | For every nonzero long the body is `<length>\r\n<decimal>`. Its one- or two-byte length lookup stays in bounds because `toBytes` writes at most 20 bytes. For 0 it is `1\r\n` and a NUL byte. |
| RespEncoders.FastPathsMatchGeneral | core/src/main/java/redradishes/encoder/RespEncoders.java:117-122 | The 1..9, 10..99 and `Long.MIN_VALUE` fast paths write the same bytes as `longAsBulkString`. |
| RespEncoders.ZeroFastPathDiffers | core/src/main/java/redradishes/encoder/RespEncoders.java:117-122 | At 0 the one-digit fast path writes `1\r\n0`, which differs from what `longAsBulkString` would write. |
| RespEncoders.IntBulkString | core/src/main/java/redradishes/encoder/RespEncoders.java:111-115 | Every int is written as `$<len>\r\n<decimal>\r\n`, opening exactly one argument. |
| RespEncoders.LongBulkString | core/src/main/java/redradishes/encoder/RespEncoders.java:117-122 | Every long is written as `$<len>\r\n<decimal>\r\n`, opening exactly one argument. |
| RespEncoders.BytesBulkString | core/src/main/java/redradishes/encoder/RespEncoders.java:103-109 | Every byte array is written as `$<len>\r\n<bytes>\r\n`, opening exactly one argument. |
| RespEncoders.HeaderAndPayload | core/src/main/java/redradishes/encoder/RespEncoders.java:72-73 | A length header zipped with a payload writes `<decimal length>\r\n<payload>` and opens no argument. |
| RespEncoders.StrBulkString | core/src/main/java/redradishes/encoder/RespEncoders.java:55-81 | Strings are UTF-16 code units. The empty string gives `$0\r\n\r\n` without consulting the charset. Otherwise the result fails exactly when encoding fails. A too-small scratch buffer is also a failure, but only on the general branch. Every success opens one argument. On the general branch the bytes are the bulk string of the encoding. |
| RespEncoders.StrBulkStringFidelity | core/src/test/java/redradishes/encoder/RespEncodersTest.java:51-58 | Assume the up-front header agrees with the encoded length: the UTF-8 length function or the char count. Then on every branch a success writes exactly the bulk string of the encoded bytes. |
| RespEncoders.IntBulkStringRoundTrip | core/src/test/java/redradishes/encoder/RespEncodersTest.java:68-75 | The compacted output reads back as the decimal of the int, and that decimal reads back as the int. |
| RespEncoders.LongBulkStringRoundTrip | core/src/test/java/redradishes/encoder/RespEncodersTest.java:77-84 | The compacted output reads back as the decimal of the long, and that decimal reads back as the long. |
| RespEncoders.BytesBulkStringRoundTrip | core/src/test/java/redradishes/encoder/RespEncodersTest.java:60-66 | The compacted output reads back as the original bytes. |
| RespEncoders.StrBulkStringRoundTrip | core/src/test/java/redradishes/encoder/RespEncodersTest.java:51-58 | Under the same header assumption, a successful encoding reads back as the encoded bytes, and the empty string as the empty payload. |
| RespEncoders.ArrayRoundTrip | core/src/test/java/redradishes/encoder/RespEncodersTest.java:37-43 | The array header reads back as its count. |
| Charsets.MaxLength | core/src/main/java/redradishes/encoder/RespEncoders.java:89 | The scratch capacity is UTF-16 chars × max bytes per char, saturating at `Integer.MAX_VALUE` as the `(int)` cast of a double does. |
| Charsets.EncodeWithinCapacity | core/src/main/java/redradishes/encoder/RespEncoders.java:89-92 | An encoding of at most max-bytes-per-char bytes per UTF-16 char (and at most `Integer.MAX_VALUE` bytes) always fits the scratch buffer. |
| Charsets.SurrogatePairFits | core/src/main/java/redradishes/encoder/RespEncoders.java:89-92 | Every surrogate pair (a high surrogate followed by a low one) counts as two chars, so a four-byte encoding of it fits under a two-bytes-per-char charset such as UTF-16. |
| Charsets.ByteBuffer.Allocate | core/src/main/java/redradishes/encoder/RespEncoders.java:90 | A fresh zero-filled buffer of the requested capacity, with position 0 and limit at capacity. |
| Charsets.ByteBuffer.Put | core/src/main/java/redradishes/encoder/RespEncoders.java:92 | The encoder's output is written at the position, the position advances past it, and every other byte is unchanged. |
| Charsets.ByteBuffer.Flip | core/src/main/java/redradishes/encoder/RespEncoders.java:99 | The limit becomes the old position and the position becomes 0. |
| Charsets.EncodeInto | core/src/main/java/redradishes/encoder/RespEncoders.java:92 | The result is Underflow exactly when the input is encodable and fits the remaining space; then the encoding has been appended. It is Error exactly when the input is unencodable. |
| Charsets.EncodeCharSeq | core/src/main/java/redradishes/encoder/RespEncoders.java:87-101 | Success exactly when the input is encodable and its encoding fits `maxLength`; the bytes returned are the encoding. Unencodable input is a coding error and a too-long encoding a buffer overflow. The result agrees with `Encode`. |
| ConstExprs.Serialize | core/src/test/java/redradishes/encoder/RespEncodersTest.java:42 | The definition of what an expression writes, with no contract of its own: `NEW_ARG` is '$', constants are their bytes, and an append writes its parts in order. The encoders' contracts are stated through it. |
| ConstExprs.Size | core/src/test/java/redradishes/encoder/RespEncodersTest.java:41 | `size()` counts the `NEW_ARG` nodes, and never exceeds the number of bytes written. |
| ConstExprs.Compact | core/src/test/java/redradishes/encoder/RespEncodersTest.java:54-57 | Compacting preserves the written bytes and the argument count. An argument-free tree becomes one span. |
| ConstExprs.CompactIdempotent | core/src/test/java/redradishes/encoder/RespEncodersTest.java:40 | Compacting a compacted expression changes nothing. The `array()` encoder is compacted when built (RespEncoders.java:38), and the test compacts its output again. |
| Decimals.Digits | core/src/main/java/redradishes/encoder/RespEncoders.java:156-158 | The digits of a number are non-empty, and start with '0' only for 0. |
| Decimals.DigitsAreDigits | core/src/main/java/redradishes/encoder/RespEncoders.java:157 | Every byte of a number's digits is in '0'..'9'. |
| Decimals.DecimalShape | core/src/main/java/redradishes/encoder/RespEncoders.java:146-159 | A notation has the digit count of the magnitude plus a sign. It starts with '-' exactly for negative numbers and is digits everywhere else. |
| Decimals.DigitCount | core/src/main/java/redradishes/encoder/RespEncoders.java:163-170 | A number in [10^(k-1), 10^k) has exactly `k` digits. |
| Decimals.LongDecimalLength | core/src/main/java/redradishes/encoder/RespEncoders.java:126-128 | A long has at most 19 digits and a notation of at most 20 bytes, so the length header is one byte or a `NUM_BYTES` entry. |
| Decimals.DecimalRoundTrip | core/src/test/java/redradishes/decoder/RepliesTest.java:138-140 | Reading the decimal notation of any integer gives the integer back. |
| RespWire.ReadHeaderOfDecimal | core/src/test/java/redradishes/decoder/RepliesTest.java:138-140 | A `<marker><decimal>\r\n` header line reads back as its number, whatever follows it. |
| RespWire.BulkStringRoundTrip | core/src/test/java/redradishes/decoder/RepliesTest.java:129-136 | Every payload reads back from its bulk-string form. |
| RespWire.ArrayHeaderRoundTrip | core/src/test/java/redradishes/decoder/RepliesTest.java:138-140 | Every count reads back from its array-header form. |

## Left out

- The per-thread encoder cache (`charsetDecodersMap`, `getCharsetEncoder`, RespEncoders.java:39-45 and :83-85) is left out. It exists for per-thread mutable state and weak references, so the charset is passed to the encoders as a value instead.
- The JDK `CharsetEncoder` and Guava's `Utf8.encodedLength` are foreign code.
  - A charset is a flag for UTF-8, a whole number of maximum bytes per char, and an encoding function that may fail.
  - The UTF-8 length is a parameter of `StrBulkString`.
- StrBulkString: on the UTF-8 and one-byte-per-char branches, the exact bytes are stated only under `HeaderAgrees`. That is the assumption that the length computed before encoding equals the encoded length. The code relies on the same thing.
- `maxBytesPerChar()` is a float, and the capacity is computed in `double`. The model uses a whole number and exact multiplication, followed by the saturating `(int)` cast. The test `maxBytesPerChar() == 1.0` becomes an integer comparison.
- Surrogate pairs are not decoded into code points. The abstract charset sees the UTF-16 code units and decides alone which of them, such as an unpaired surrogate, are malformed.
- `CharsetEncoder.flush` is not modelled: the modelled encoders keep no state between calls, so flushing writes nothing and reports underflow.
- The returned `ByteBuffer` shares its backing array with the `bytesConst` that borrows it. The model copies the bytes, so aliasing is not represented.
- `stringEnc`, `bytesEnc`, `digitEncoder`, `choice`, `zip`, `map` and the internals of `Encoder`, `IntEncoder` and `ConstExpr` are not part of this model.
  - Only their observable bytes and argument counts are modelled.
  - A failing `stringEnc` is a `Failure` returned at encoding time, in place of the thrown `UncheckedCharacterCodingException`.
  - On the UTF-8 branch an unpaired surrogate first makes Guava's `Utf8.encodedLength` (RespEncoders.java:58) throw `IllegalArgumentException`. The model keeps `utf8Length` total and folds that case into the charset's encoding failing, so both are the same `Unencodable` failure.
  - A `BufferOverflowException` from the scratch buffer is the `BufferOverflow` failure.
- The reply parser (`Replies`, `ReplyParser`, `BulkStringBuilderFactory`, `FailureHandler`) is not part of this model. The readers in `resp_wire.dfy` take a whole message at once and serve only as inverses.
- Writing a `ConstExpr` to a channel or buffer is not modelled; `Serialize` gives the bytes in write order.
- The test scaffolding (Theories, quickcheck generators, Mockito) is left out.

## Findings

| source | as written | input that shows it | evidently intended | confidence | as-written member | corrected member |
|---|---|---|---|---|---|---|
| core/src/main/java/redradishes/encoder/RespEncoders.java:144-161 | For 0 the buffer has one byte and the digit loop never runs, so `toBytes(0)` returns the byte 0x00. | `num = 0`. RespEncodersTest.java:86-89 expects `Long.toString(0)`, which is "0". Production callers never pass 0, because they route 0..99 to the tables. | `toBytes(0)` is "0", the decimal of every long | high (not executed) | RespEncoders.ToBytesOfZero | RespEncoders.CorrectedToBytes |

The encoders keep `toBytes` as written. The defect stays invisible in their output because both callers send 0 to the one-digit table first; `ZeroFastPathDiffers` shows that there the fast path is what hides it. `CorrectedToBytes` states what a fixed `toBytes` must return for every long.
