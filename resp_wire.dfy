/**
 * The byte-exact RESP forms the encoders must produce: a bulk string
 * `$<length>\r\n<payload>\r\n` and an array header `*<count>\r\n`, together with a
 * whole-message reader for each. The readers are specifications only (they take the
 * complete message at once); they serve as the inverse in the encoders' round trips.
 */
module RespWire {
  import opened Primitives
  import opened Decimals

  const CRLF: seq<byte> := [CR, LF]

  /** `<|payload|>\r\n<payload>`: a bulk string without its `$` marker and final CRLF. */
  function BulkBody(payload: seq<byte>): seq<byte>
  {
    Decimal(|payload|) + CRLF + payload
  }

  /** `$<|payload|>\r\n<payload>\r\n` */
  function BulkString(payload: seq<byte>): seq<byte>
  {
    [DOLLAR] + BulkBody(payload) + CRLF
  }

  /** `*<count>\r\n` */
  function ArrayHeader(count: int): seq<byte>
  {
    [STAR] + Decimal(count) + CRLF
  }

  /** The index of the first CR at or after `from`, or `|s|` when there is none. */
  function FindCr(s: seq<byte>, from: nat): (k: nat)
    requires from <= |s|
    ensures from <= k <= |s|
    ensures k < |s| ==> s[k] == CR
    ensures forall j :: from <= j < k ==> s[j] != CR
    decreases |s| - from
  {
    if from == |s| || s[from] == CR then from else FindCr(s, from + 1)
  }

  /**
   * Reads a `<marker><decimal>\r\n` line at the start of `s`: its number and the index
   * just past its CRLF.
   */
  function ReadHeader(marker: byte, s: seq<byte>): (r: Option<(int, nat)>)
    ensures r.Some? ==> r.value.1 <= |s|
  {
    if |s| == 0 || s[0] != marker then None
    else
      var k := FindCr(s, 1);
      if k + 1 < |s| && s[k + 1] == LF then
        match ParseDecimal(s[1..k])
        case Some(n) => Some((n, k + 2))
        case None => None
      else None
  }

  /** The payload of a complete, non-null bulk-string message. */
  function ParseBulkString(s: seq<byte>): Option<seq<byte>>
  {
    match ReadHeader(DOLLAR, s)
    case None => None
    case Some((len, start)) =>
      if len < 0 || |s| != start + len + 2 || s[start + len..] != CRLF then None
      else Some(s[start..start + len])
  }

  /** The count of a complete array-header message. */
  function ParseArrayHeader(s: seq<byte>): Option<int>
  {
    match ReadHeader(STAR, s)
    case None => None
    case Some((count, end)) => if end == |s| then Some(count) else None
  }

  /** A header line written with `Decimal` is read back whatever follows it. */
  lemma ReadHeaderOfDecimal(marker: byte, n: int, rest: seq<byte>)
    ensures ReadHeader(marker, [marker] + Decimal(n) + CRLF + rest) == Some((n, |Decimal(n)| + 3))
  {
    var d := Decimal(n);
    var s := [marker] + d + CRLF + rest;
    DecimalShape(n);
    assert forall j :: 1 <= j < 1 + |d| ==> s[j] == d[j - 1];
    assert s[1 + |d|] == CR;
    assert FindCr(s, 1) == 1 + |d|;
    assert s[1..1 + |d|] == d;
    DecimalRoundTrip(n);
  }

  /** Every payload, whatever bytes it holds, reads back from its bulk-string form. */
  lemma BulkStringRoundTrip(payload: seq<byte>)
    ensures ParseBulkString(BulkString(payload)) == Some(payload)
  {
    var header := [DOLLAR] + Decimal(|payload|) + CRLF;
    var s := BulkString(payload);
    assert s == header + (payload + CRLF) by {
      assert BulkBody(payload) == Decimal(|payload|) + CRLF + payload;
    }
    ReadHeaderOfDecimal(DOLLAR, |payload|, payload + CRLF);
    SplitAfter(header, payload, CRLF);
    ParseAfterHeader(s, |header|, payload);
  }

  /** Once the header is read, a payload and a CRLF that end the message make it complete. */
  lemma ParseAfterHeader(s: seq<byte>, start: nat, payload: seq<byte>)
    requires ReadHeader(DOLLAR, s) == Some((|payload|, start))
    requires |s| == start + |payload| + 2
    requires s[start..start + |payload|] == payload && s[start + |payload|..] == CRLF
    ensures ParseBulkString(s) == Some(payload)
  {
  }

  /** Slicing `a + b + c` back into its parts. */
  lemma SplitAfter(a: seq<byte>, b: seq<byte>, c: seq<byte>)
    ensures (a + (b + c))[|a|..|a| + |b|] == b
    ensures (a + (b + c))[|a| + |b|..] == c
  {
    assert (a + (b + c))[|a|..] == b + c;
  }

  /** Every count reads back from its array-header form. */
  lemma ArrayHeaderRoundTrip(count: int)
    ensures ParseArrayHeader(ArrayHeader(count)) == Some(count)
  {
    ReadHeaderOfDecimal(STAR, count, []);
    assert ArrayHeader(count) == [STAR] + Decimal(count) + CRLF + [];
  }
}
