/**
 * The outbound RESP encoders: decimal digit emission for longs (`toBytes`,
 * `stringSize`), the number encoder behind every length header (`intEnc`), and the
 * bulk-string and array-header encoders with their small-value fast paths.
 *
 * Each encoder is a function from its input to a `ConstExpr`; the combinator
 * structure of the source (`append`, `zip`, `choice`) is written out as `Append`
 * nodes and conditionals.
 */
module RespEncoders {
  import opened Primitives
  import opened Decimals
  import opened ConstExprs
  import opened RespWire
  import opened Charsets

  /** The notations of `lo..hi` in order (`IntStream.rangeClosed(lo, hi)` mapped to decimal). */
  function DecimalsInRange(lo: int, hi: int): (r: seq<seq<byte>>)
    requires lo <= hi + 1
    ensures |r| == hi - lo + 1
    ensures forall i :: 0 <= i < |r| ==> r[i] == Decimal(lo + i)
    decreases hi - lo
  {
    if lo > hi then [] else [Decimal(lo)] + DecimalsInRange(lo + 1, hi)
  }

  /** The two-digit notations of 10..99; entry `i` is that of `i + 10`. */
  const NUM_BYTES: seq<seq<byte>> := DecimalsInRange(10, 99)

  /** The notation of `Long.MIN_VALUE`, which `toBytes` cannot compute by negation. */
  const MIN_LONG_BYTES: seq<byte> := Ascii("-9223372036854775808")

  /** The first `count` powers 10, 100, ... of ten, each less one. */
  function PowersLessOne(count: nat): (r: seq<int>)
    ensures |r| == count
    ensures forall i :: 0 <= i < count ==> r[i] == Pow10(i + 1) - 1
  {
    if count == 0 then [] else PowersLessOne(count - 1) + [Pow10(count) - 1]
  }

  /** 9, 99, ..., 10^18 - 1: entry `i` is the largest number with `i + 1` digits. */
  const SIZE_TABLE: seq<int> := PowersLessOne(18)

  const CR_LF: ConstExpr := BytesConst([CR, LF])

  /** `charConst`: the char narrowed to its low byte by the `(byte)` cast, opening no argument. */
  function CharConst(c: char): (e: ConstExpr)
    ensures Serialize(e) == [(c as int % 256) as byte] && Size(e) == 0
  {
    ByteConst((c as int % 256) as byte)
  }

  /** `20\r\n-9223372036854775808`: the bulk-string body of `Long.MIN_VALUE`. */
  const MIN_LONG_BULK_STRING: ConstExpr :=
    Compact(Append(Append(Append(CharConst('2'), CharConst('0')), CR_LF), BytesConst(MIN_LONG_BYTES)))

  /** `0\r\n`: the bulk-string body of an empty string. */
  const EMPTY_BULK_STRING: ConstExpr := Compact(Append(CharConst('0'), CR_LF))

  // ---------------------------------------------------------------------------
  // Constants

  /** The constant notation of `Long.MIN_VALUE` is its decimal. */
  lemma MinLongBytesIsDecimal()
    ensures MIN_LONG_BYTES == Decimal(MIN_LONG as int)
  {
    MinLongBytesValue();
    MinLongDigits();
  }

  /** The bytes of the literal "-9223372036854775808". */
  lemma MinLongBytesValue()
    ensures MIN_LONG_BYTES == [45, 57, 50, 50, 51, 51, 55, 50, 48, 51, 54, 56, 53, 52, 55, 55, 53, 56, 48, 56]
  {
  }

  /** The notation of `Long.MIN_VALUE`: a '-' and the digits of 2^63. */
  lemma MinLongDigits()
    ensures Decimal(MIN_LONG as int) == [45, 57, 50, 50, 51, 51, 55, 50, 48, 51, 54, 56, 53, 52, 55, 55, 53, 56, 48, 56]
  {
    MinLongMagnitudeDigits();
    SignedDigits(MIN_LONG as int, [57, 50, 50, 51, 51, 55, 50, 48, 51, 54, 56, 53, 52, 55, 55, 53, 56, 48, 56]);
  }

  /** A negative number whose magnitude has the digits `d` is written '-' followed by `d`. */
  lemma SignedDigits(n: int, d: seq<byte>)
    requires n < 0 && Digits(-n) == d
    ensures Decimal(n) == [MINUS] + d
  {
  }

  /** The digits of 2^63, the magnitude of `Long.MIN_VALUE`. */
  lemma MinLongMagnitudeDigits()
    ensures Digits(9223372036854775808) == [57, 50, 50, 51, 51, 55, 50, 48, 51, 54, 56, 53, 52, 55, 55, 53, 56, 48, 56]
  {
    MinLongLeadingDigits();
    assert Digits(9223372036) == [57, 50, 50, 51, 51, 55, 50, 48, 51, 54];
    assert Digits(92233720368) == [57, 50, 50, 51, 51, 55, 50, 48, 51, 54, 56];
    assert Digits(922337203685) == [57, 50, 50, 51, 51, 55, 50, 48, 51, 54, 56, 53];
    assert Digits(9223372036854) == [57, 50, 50, 51, 51, 55, 50, 48, 51, 54, 56, 53, 52];
    assert Digits(92233720368547) == [57, 50, 50, 51, 51, 55, 50, 48, 51, 54, 56, 53, 52, 55];
    assert Digits(922337203685477) == [57, 50, 50, 51, 51, 55, 50, 48, 51, 54, 56, 53, 52, 55, 55];
    assert Digits(9223372036854775) == [57, 50, 50, 51, 51, 55, 50, 48, 51, 54, 56, 53, 52, 55, 55, 53];
    assert Digits(92233720368547758) == [57, 50, 50, 51, 51, 55, 50, 48, 51, 54, 56, 53, 52, 55, 55, 53, 56];
    assert Digits(922337203685477580) == [57, 50, 50, 51, 51, 55, 50, 48, 51, 54, 56, 53, 52, 55, 55, 53, 56, 48];
    assert Digits(9223372036854775808) == [57, 50, 50, 51, 51, 55, 50, 48, 51, 54, 56, 53, 52, 55, 55, 53, 56, 48, 56];
  }

  /** The first nine digits of `Long.MIN_VALUE`'s magnitude. */
  lemma MinLongLeadingDigits()
    ensures Digits(922337203) == [57, 50, 50, 51, 51, 55, 50, 48, 51]
  {
    assert Digits(9) == [57];
    assert Digits(92) == [57, 50];
    assert Digits(922) == [57, 50, 50];
    assert Digits(9223) == [57, 50, 50, 51];
    assert Digits(92233) == [57, 50, 50, 51, 51];
    assert Digits(922337) == [57, 50, 50, 51, 51, 55];
    assert Digits(9223372) == [57, 50, 50, 51, 51, 55, 50];
    assert Digits(92233720) == [57, 50, 50, 51, 51, 55, 50, 48];
  }

  /** Each threshold is the largest number of its digit count. */
  lemma SizeTableDigits(i: nat)
    requires i < |SIZE_TABLE|
    ensures |Digits(SIZE_TABLE[i])| == i + 1 && |Digits(SIZE_TABLE[i] + 1)| == i + 2
  {
    var t := SIZE_TABLE[i];
    assert t + 1 == Pow10(i + 1);
    PowerDigits(i + 1);
  }

  /** 10^k - 1 is the largest number with `k` digits and 10^k the smallest with `k + 1`. */
  lemma PowerDigits(k: nat)
    requires k >= 1
    ensures |Digits(Pow10(k) - 1)| == k && |Digits(Pow10(k))| == k + 1
  {
    Pow10Increasing(k - 1, k);
    Pow10Increasing(k, k + 1);
    DigitCount(Pow10(k) - 1, k);
    DigitCount(Pow10(k), k + 1);
  }

  /** The thresholds strictly increase, so the scan in `stringSize` meets them in order. */
  lemma SizeTableIncreasing(i: nat, j: nat)
    requires i < j < |SIZE_TABLE|
    ensures SIZE_TABLE[i] < SIZE_TABLE[j]
  {
    Pow10Increasing(i + 1, j + 1);
  }

  /** `EMPTY_BULK_STRING` is one span holding `0\r\n`. */
  lemma EmptyBulkString()
    ensures EMPTY_BULK_STRING == BytesConst(Decimal(0) + CRLF)
    ensures Serialize(EMPTY_BULK_STRING) == BulkBody([])
  {
  }

  /**
   * The empty-string fast path of `strBulkString` writes what the encoding branches
   * would write for a charset that encodes the empty string as no bytes and whose
   * header agrees: the UTF-8 header and the char count are both 0, and the scratch
   * buffer of capacity 0 holds the empty encoding.
   */
  lemma EmptyStringFastPathMatchesGeneral(cs: Charset, utf8Length: JavaString -> Int32)
    requires cs.encode([]) == Some([])
    requires HeaderAgrees(cs, utf8Length, [])
    ensures Encode(cs, []) == Success([])
    ensures Serialize(EMPTY_BULK_STRING) == Serialize(HeaderAndPayload(if cs.isUtf8 then utf8Length([]) else 0, []))
  {
  }

  /** `MIN_LONG_BULK_STRING` is one span holding the length header and notation of `Long.MIN_VALUE`. */
  lemma MinLongBulkString()
    ensures MIN_LONG_BULK_STRING.BytesConst?
    ensures Serialize(MIN_LONG_BULK_STRING) == BulkBody(Decimal(MIN_LONG as int))
  {
    MinLongBytesIsDecimal();
    assert |MIN_LONG_BYTES| == 20;
    assert Decimal(20) == [50, 48];
    var e := Append(Append(Append(CharConst('2'), CharConst('0')), CR_LF), BytesConst(MIN_LONG_BYTES));
    Append3(Append(CharConst('2'), CharConst('0')), CR_LF, BytesConst(MIN_LONG_BYTES));
    assert Serialize(e) == [50, 48] + CRLF + MIN_LONG_BYTES;
  }

  // ---------------------------------------------------------------------------
  // Digit emission

  /** `stringSize`: the number of digits of a non-negative long, found by scanning `SIZE_TABLE`. */
  method StringSize(x: Int64) returns (size: int)
    ensures x >= 0 ==> size == |Digits(x as int)|
    ensures x < 0 ==> size == 1
    ensures 1 <= size <= 19
  {
    for i := 0 to |SIZE_TABLE|
      invariant i > 0 ==> Pow10(i) <= x as int
    {
      if x as int <= SIZE_TABLE[i] {
        if x >= 0 {
          DigitCount(x as int, i + 1);
        }
        return i + 1;
      }
    }
    Pow10Values();
    DigitCount(x as int, 19);
    return 19;
  }

  /** What `toBytes` returns, case by case as the source distinguishes them. */
  function ToBytesOf(num: Int64): (r: seq<byte>)
    ensures num != 0 ==> r == Decimal(num as int)
    ensures num == 0 ==> r == [0]
    ensures 1 <= |r| <= 20
  {
    MinLongBytesIsDecimal();
    LongDecimalLength(num);
    if num == MIN_LONG then MIN_LONG_BYTES
    else if num == 0 then [0]
    else Decimal(num as int)
  }

  /**
   * The digit loop of `toBytes`: writes the digits of `num` backwards from the end of
   * `buf`, least significant first, until `num` is exhausted. The first `off` bytes
   * (the sign slot) are untouched; for `0` nothing is written.
   */
  method FillDigits(buf: array<byte>, num: Int64, off: nat)
    requires num >= 0
    requires buf.Length == off + (if num == 0 then 1 else |Digits(num as int)|)
    modifies buf
    ensures num > 0 ==> buf[off..] == Digits(num as int)
    ensures num > 0 ==> buf[..off] == old(buf[..off])
    ensures num == 0 ==> buf[..] == old(buf[..])
  {
    ghost var ds := LeadingDigits(num as int);
    var n := num;
    var i := buf.Length - 1;
    while n != 0
      invariant 0 <= n
      invariant off <= i + 1 <= buf.Length
      invariant num == 0 ==> buf[..] == old(buf[..])
      invariant num > 0 ==> i + 1 - off == |LeadingDigits(n as int)| && LeadingDigits(n as int) == ds[..i + 1 - off]
      invariant num > 0 ==> forall k :: i < k < buf.Length ==> buf[k] == ds[k - off]
      invariant buf[..off] == old(buf[..off])
    {
      var m := n as int;
      DigitsStep(m);
      buf[i] := DigitByte(m % 10);
      i := i - 1;
      n := n / 10;
    }
    assert num > 0 ==> buf[off..] == ds;
  }

  /**
   * `toBytes`: the ASCII decimal of `num`, written right to left into a buffer of
   * exactly the right size. For `num == 0` the digit loop never runs and the buffer
   * keeps its single zero byte.
   */
  method ToBytes(num: Int64) returns (r: seq<byte>)
    ensures num != 0 ==> r == Decimal(num as int)
    ensures num == 0 ==> r == [0]
    ensures r == ToBytesOf(num)
    ensures num != 0 ==> |r| == |Digits(if num < 0 then -(num as int) else num as int)| + (if num < 0 then 1 else 0)
    ensures num != 0 ==> (r[0] == MINUS <==> num < 0)
    ensures forall k :: 0 < k < |r| ==> IsDigit(r[k])
  {
    DecimalShape(num as int);
    if num == MIN_LONG {
      MinLongBytesIsDecimal();
      return MIN_LONG_BYTES;
    }
    var neg := num < 0;
    var n := num;
    if neg {
      n := -n;  // in range: MIN_LONG was handled above
    }
    var size := StringSize(n);
    if neg {
      size := size + 1;
    }
    var buf := new byte[size](_ => 0);
    if neg {
      buf[0] := MINUS;
    }
    FillDigits(buf, n, if neg then 1 else 0);
    assert neg ==> buf[..] == [MINUS] + buf[1..];
    r := buf[..];
  }
  /**
   * As written, `toBytes(0)` is one NUL byte rather than "0", the `Long.toString(0)`
   * that its callers and tests expect: the digit loop never runs for zero.
   */
  lemma ToBytesOfZero()
    ensures ToBytesOf(0) == [0]
    ensures Decimal(0) == [ZERO]
    ensures ToBytesOf(0) != Decimal(0)
  {
  }

  /** `toBytes` with zero written as "0": the ASCII decimal of every long. */
  function CorrectedToBytes(num: Int64): (r: seq<byte>)
    ensures r == Decimal(num as int)
    ensures 1 <= |r| <= 20
  {
    if num == 0 then [ZERO] else ToBytesOf(num)
  }


  // ---------------------------------------------------------------------------
  // The number encoder

  /** `intEnc`: the decimal of `num` as one constant span, via the fast paths for 0..99. */
  function IntEnc(num: Int32): (e: ConstExpr)
    ensures Serialize(e) == Decimal(num as int)
    ensures Size(e) == 0
  {
    if 0 <= num <= 9 then ByteConst(DigitByte(num as int))
    else if 10 <= num <= 99 then BytesConst(NUM_BYTES[num - 10])
    else BytesConst(ToBytesOf(num as int as Int64))
  }

  /** `array()`: the array header `*<count>\r\n`, compacted into one span. */
  function Array(count: Int32): (e: ConstExpr)
    ensures Serialize(e) == ArrayHeader(count as int)
    ensures Size(e) == 0
    ensures e.BytesConst? && Compact(e) == e
  {
    Append3(CharConst('*'), IntEnc(count), CR_LF);
    Compact(Append(Append(CharConst('*'), IntEnc(count)), CR_LF))
  }

  // ---------------------------------------------------------------------------
  // Bulk strings of numbers. The bodies below exclude the leading `NewArg` and the
  // trailing CRLF, which the public encoders add.

  /** `ONE_DIGIT_AS_BULK_STRING`: `1\r\n<digit>`. */
  function OneDigitAsBulkString(num: Int32): (e: ConstExpr)
    requires 0 <= num <= 9
    ensures Serialize(e) == BulkBody(Decimal(num as int))
    ensures Size(e) == 0
  {
    assert Decimal(num as int) == [DigitByte(num as int)];
    assert Decimal(1) == [49];
    Append3(CharConst('1'), CR_LF, ByteConst(DigitByte(num as int)));
    Append(Append(CharConst('1'), CR_LF), ByteConst(DigitByte(num as int)))
  }

  /** `TWO_DIGITS_AS_BULK_STRING`: `2\r\n<two digits>`. */
  function TwoDigitsAsBulkString(num: Int32): (e: ConstExpr)
    requires 10 <= num <= 99
    ensures Serialize(e) == BulkBody(Decimal(num as int))
    ensures Size(e) == 0
  {
    assert Pow10(2) == 100;
    DigitCount(num as int, 2);
    assert Decimal(2) == [50];
    Append3(CharConst('2'), CR_LF, BytesConst(NUM_BYTES[num - 10]));
    Append(Append(CharConst('2'), CR_LF), BytesConst(NUM_BYTES[num - 10]))
  }

  /**
   * `longAsBulkString`: `<length>\r\n<toBytes(num)>`, the length taken from a one-byte
   * or two-byte table entry (`toBytes` writes at most 20 bytes). For zero it inherits the
   * NUL byte of `toBytes`; both callers send zero to the one-digit table instead.
   */
  function LongAsBulkString(num: Int64): (e: ConstExpr)
    ensures num != 0 ==> Serialize(e) == BulkBody(Decimal(num as int))
    ensures num == 0 ==> Serialize(e) == [ZERO + 1, CR, LF, 0]
    ensures Size(e) == 0
  {
    var bytes := ToBytesOf(num);
    var len := |bytes|;
    var header := if len <= 9 then ByteConst(DigitByte(len)) else BytesConst(NUM_BYTES[len - 10]);
    Append3(header, CR_LF, BytesConst(bytes));
    Append(Append(header, CR_LF), BytesConst(bytes))
  }

  /**
   * The fast paths write what the general path writes: the one-digit and two-digit
   * tables and `MIN_LONG_BULK_STRING` agree with `longAsBulkString` on every nonzero
   * number they serve.
   */
  lemma FastPathsMatchGeneral(num: Int64)
    ensures 1 <= num <= 9 ==>
      Serialize(OneDigitAsBulkString(num as int as Int32)) == Serialize(LongAsBulkString(num))
    ensures 10 <= num <= 99 ==>
      Serialize(TwoDigitsAsBulkString(num as int as Int32)) == Serialize(LongAsBulkString(num))
    ensures num == MIN_LONG ==> Serialize(MIN_LONG_BULK_STRING) == Serialize(LongAsBulkString(num))
  {
    if num == MIN_LONG {
      MinLongBulkString();
    }
  }

  /**
   * At zero the one-digit fast path is not a shortcut: it writes `1\r\n0` where
   * `longAsBulkString` would write `1\r\n` and a NUL byte.
   */
  lemma ZeroFastPathDiffers()
    ensures Serialize(OneDigitAsBulkString(0)) == [ZERO + 1, CR, LF, ZERO]
    ensures Serialize(OneDigitAsBulkString(0)) != Serialize(LongAsBulkString(0))
  {
    assert Decimal(0) == [ZERO];
  }

  /** `intBulkString()`: `$<length>\r\n<decimal>\r\n`, opening one argument. */
  function IntBulkString(num: Int32): (e: ConstExpr)
    ensures Serialize(e) == BulkString(Decimal(num as int))
    ensures Size(e) == 1
  {
    var body :=
      if 0 <= num <= 9 then OneDigitAsBulkString(num)
      else if 10 <= num <= 99 then TwoDigitsAsBulkString(num)
      else LongAsBulkString(num as int as Int64);
    Append3(NewArg, body, CR_LF);
    Append(Append(NewArg, body), CR_LF)
  }

  /** `longBulkString()`: `$<length>\r\n<decimal>\r\n`, opening one argument. */
  function LongBulkString(num: Int64): (e: ConstExpr)
    ensures Serialize(e) == BulkString(Decimal(num as int))
    ensures Size(e) == 1
  {
    MinLongBulkString();
    var body :=
      if 0 <= num <= 9 then OneDigitAsBulkString(num as int as Int32)
      else if 10 <= num <= 99 then TwoDigitsAsBulkString(num as int as Int32)
      else if num == MIN_LONG then MIN_LONG_BULK_STRING
      else LongAsBulkString(num);
    Append3(NewArg, body, CR_LF);
    Append(Append(NewArg, body), CR_LF)
  }

  // ---------------------------------------------------------------------------
  // Bulk strings of bytes and of characters

  /** `bytesBulkString()`: `$<|bytes|>\r\n<bytes>\r\n`, opening one argument. */
  function BytesBulkString(bytes: seq<byte>): (e: ConstExpr)
    requires |bytes| <= INT_MAX
    ensures Serialize(e) == BulkString(bytes)
    ensures Size(e) == 1
  {
    var header := Append(NewArg, IntEnc(|bytes| as Int32));
    Append3(header, CR_LF, BytesConst(bytes));
    Append(Append(Append(header, CR_LF), BytesConst(bytes)), CR_LF)
  }

  /** `<length>\r\n<payload>`: a length header zipped with the encoded payload. */
  function HeaderAndPayload(length: Int32, payload: seq<byte>): (e: ConstExpr)
    ensures Serialize(e) == Decimal(length as int) + CRLF + payload
    ensures Size(e) == 0
  {
    Append3(IntEnc(length), CR_LF, BytesConst(payload));
    Append(Append(IntEnc(length), CR_LF), BytesConst(payload))
  }

  /**
   * `strBulkString(charset)`: `$<byte length>\r\n<encoded>\r\n`, opening one argument.
   * The empty string never reaches the codec. UTF-8 takes its header from
   * `utf8Length` and a one-byte-per-char charset from the char count, both before
   * encoding; any other charset encodes first into a scratch buffer and uses the
   * length actually written.
   */
  function StrBulkString(cs: Charset, utf8Length: JavaString -> Int32, s: JavaString): (r: Result<ConstExpr, CodingError>)
    requires |s| <= INT_MAX
    ensures s == [] ==> r.Success? && Serialize(r.value) == BulkString([])
    ensures r.Failure? <==>
      s != [] && (if cs.isUtf8 || cs.maxBytesPerChar == 1 then cs.encode(s).None? else Encode(cs, s).Failure?)
    ensures r.Success? ==> Size(r.value) == 1
    ensures r.Success? && s != [] && !cs.isUtf8 && cs.maxBytesPerChar != 1 ==>
      Serialize(r.value) == BulkString(cs.encode(s).value)
  {
    var body: Result<ConstExpr, CodingError> :=
      if s == [] then Success(EMPTY_BULK_STRING)
      else if cs.isUtf8 then
        match cs.encode(s)
        case None => Failure(Unencodable)
        case Some(bytes) => Success(HeaderAndPayload(utf8Length(s), bytes))
      else if cs.maxBytesPerChar == 1 then
        match cs.encode(s)
        case None => Failure(Unencodable)
        case Some(bytes) => Success(HeaderAndPayload(|s| as Int32, bytes))
      else
        match Encode(cs, s)
        case Failure(err) => Failure(err)
        case Success(bytes) => Success(HeaderAndPayload(|bytes| as Int32, bytes));
    match body
    case Failure(err) => Failure(err)
    case Success(b) => Append3(NewArg, b, CR_LF); Success(Append(Append(NewArg, b), CR_LF))
  }

  /**
   * The header that UTF-8 and one-byte-per-char charsets compute without encoding
   * agrees with the length of the encoding.
   */
  predicate HeaderAgrees(cs: Charset, utf8Length: JavaString -> Int32, s: JavaString)
  {
    cs.encode(s).Some? ==>
      (cs.isUtf8 ==> utf8Length(s) as int == |cs.encode(s).value|) &&
      (!cs.isUtf8 && cs.maxBytesPerChar == 1 ==> |cs.encode(s).value| == |s|)
  }

  /**
   * Charset fidelity: whenever the header computed up front agrees with the encoding,
   * a successful encoding is exactly the bulk string of the encoded bytes.
   */
  lemma StrBulkStringFidelity(cs: Charset, utf8Length: JavaString -> Int32, s: JavaString)
    requires |s| <= INT_MAX
    requires HeaderAgrees(cs, utf8Length, s)
    ensures var r := StrBulkString(cs, utf8Length, s);
      r.Success? && s != [] ==> Serialize(r.value) == BulkString(cs.encode(s).value)
  {
    if s != [] && cs.encode(s).Some? && (cs.isUtf8 || cs.maxBytesPerChar == 1) {
      var bytes := cs.encode(s).value;
      var length: Int32 := if cs.isUtf8 then utf8Length(s) else |s| as Int32;
      var b := HeaderAndPayload(length, bytes);
      assert StrBulkString(cs, utf8Length, s) == Success(Append(Append(NewArg, b), CR_LF));
      Append3(NewArg, b, CR_LF);
    }
  }

  // ---------------------------------------------------------------------------
  // Round trips through the wire-format readers

  lemma IntBulkStringRoundTrip(num: Int32)
    ensures ParseBulkString(Serialize(Compact(IntBulkString(num)))) == Some(Decimal(num as int))
    ensures ParseDecimal(Decimal(num as int)) == Some(num as int)
  {
    BulkStringRoundTrip(Decimal(num as int));
    DecimalRoundTrip(num as int);
  }

  lemma LongBulkStringRoundTrip(num: Int64)
    ensures ParseBulkString(Serialize(Compact(LongBulkString(num)))) == Some(Decimal(num as int))
    ensures ParseDecimal(Decimal(num as int)) == Some(num as int)
  {
    BulkStringRoundTrip(Decimal(num as int));
    DecimalRoundTrip(num as int);
  }

  lemma BytesBulkStringRoundTrip(bytes: seq<byte>)
    requires |bytes| <= INT_MAX
    ensures ParseBulkString(Serialize(Compact(BytesBulkString(bytes)))) == Some(bytes)
  {
    BulkStringRoundTrip(bytes);
  }

  lemma StrBulkStringRoundTrip(cs: Charset, utf8Length: JavaString -> Int32, s: JavaString)
    requires |s| <= INT_MAX
    requires HeaderAgrees(cs, utf8Length, s)
    ensures var r := StrBulkString(cs, utf8Length, s);
      r.Success? ==> ParseBulkString(Serialize(Compact(r.value))) == Some(if s == [] then [] else cs.encode(s).value)
  {
    StrBulkStringFidelity(cs, utf8Length, s);
    BulkStringRoundTrip(if s == [] || cs.encode(s).None? then [] else cs.encode(s).value);
  }

  lemma ArrayRoundTrip(count: Int32)
    ensures ParseArrayHeader(Serialize(Array(count))) == Some(count as int)
  {
    ArrayHeaderRoundTrip(count as int);
  }
}
