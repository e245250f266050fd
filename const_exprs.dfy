/**
 * The byte-emission tree that every encoder produces (`ConstExpr`). Only its observable
 * behaviour is modelled: the bytes it writes, the number of arguments it opens
 * (`size()`), and `compact()`, which coalesces constant runs without changing either.
 */
module ConstExprs {
  import opened Primitives

  datatype ConstExpr =
    | NewArg                          // opens one bulk-string argument; written as '$'
    | ByteConst(b: byte)              // one constant byte
    | BytesConst(bytes: seq<byte>)    // a span of bytes (constant or borrowed from the value)
    | Append(first: ConstExpr, second: ConstExpr)

  /** The bytes written for `e`, in write order: an `Append` writes its first part first. */
  function Serialize(e: ConstExpr): seq<byte>
  {
    match e
    case NewArg => [DOLLAR]
    case ByteConst(b) => [b]
    case BytesConst(bytes) => bytes
    case Append(first, second) => Serialize(first) + Serialize(second)
  }

  /** The number of arguments `e` opens, i.e. its `NewArg` nodes; each writes at least one byte. */
  function Size(e: ConstExpr): (n: nat)
    ensures n <= |Serialize(e)|
  {
    match e
    case NewArg => 1
    case ByteConst(_) => 0
    case BytesConst(_) => 0
    case Append(first, second) => Size(first) + Size(second)
  }

  /** Unfolds a left-nested `Append` of three parts, the shape every encoder builds. */
  lemma Append3(a: ConstExpr, b: ConstExpr, c: ConstExpr)
    ensures Serialize(Append(Append(a, b), c)) == Serialize(a) + Serialize(b) + Serialize(c)
    ensures Size(Append(Append(a, b), c)) == Size(a) + Size(b) + Size(c)
  {
  }

  /** Joins two compacted trees, fusing them into one buffer when both are constant spans. */
  function Merge(a: ConstExpr, b: ConstExpr): (m: ConstExpr)
    ensures Serialize(m) == Serialize(a) + Serialize(b)
    ensures Size(m) == Size(a) + Size(b)
    ensures a.BytesConst? && b.BytesConst? ==> m.BytesConst?
  {
    if a.BytesConst? && b.BytesConst? then BytesConst(a.bytes + b.bytes) else Append(a, b)
  }

  /**
   * Materialises every argument-free subtree into one contiguous buffer. The written
   * bytes and the argument count are unchanged, and an argument-free tree becomes a
   * single span.
   */
  function Compact(e: ConstExpr): (c: ConstExpr)
    ensures Serialize(c) == Serialize(e)
    ensures Size(c) == Size(e)
    ensures Size(e) == 0 ==> c == BytesConst(Serialize(e))
  {
    match e
    case NewArg => NewArg
    case ByteConst(b) => BytesConst([b])
    case BytesConst(_) => e
    case Append(first, second) => Merge(Compact(first), Compact(second))
  }

  /** Compacting twice is the same as compacting once. */
  lemma {:induction false} CompactIdempotent(e: ConstExpr)
    ensures Compact(Compact(e)) == Compact(e)
  {
    match e
    case NewArg =>
    case ByteConst(_) =>
    case BytesConst(_) =>
    case Append(first, second) =>
      CompactIdempotent(first);
      CompactIdempotent(second);
      var a, b := Compact(first), Compact(second);
      if !(a.BytesConst? && b.BytesConst?) {
        assert Compact(e) == Append(a, b);
      }
  }
}
