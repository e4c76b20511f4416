/**
 * The JavaScript side of the 64-bit integer accessors: which value `readInt64` and
 * `readUInt64` hand back for a stored integer, and which integer `writeInt64` and
 * `writeUInt64` take from the value they are given.
 */
module Int64 {
  import opened Wrappers
  import opened Bytes
  import opened Decimal
  import opened Heap

  /** The largest magnitude up to which the addon returns a Number (2^53). */
  const JS_MAX_INT: int := 0x20_0000_0000_0000
  const JS_MIN_INT: int := -0x20_0000_0000_0000

  /** What `readInt64` returns for a stored int64_t: a Number within ±2^53, its text beyond. */
  function Int64Value(v: int): (r: Value)
    ensures r.Num? || r.Str?
    ensures r.Num? <==> JS_MIN_INT <= v <= JS_MAX_INT
  {
    if v < JS_MIN_INT || v > JS_MAX_INT then Str(Format(v)) else Num(v)
  }

  /** What `readUInt64` returns for a stored uint64_t: a Number up to 2^53, its text beyond. */
  function UInt64Value(v: nat): (r: Value)
    ensures r.Num? || r.Str?
    ensures r.Num? <==> v <= JS_MAX_INT
  {
    if v > JS_MAX_INT then Str(Format(v)) else Num(v)
  }

  /**
   * The int64_t `writeInt64` stores for its input: a Number's integer value (reduced to 64
   * bits), a String's strtoll reading; anything else is refused.
   */
  function Int64Input(input: Value): (r: Result<int>)
    ensures r.Failure? <==> !(input.Num? || input.Str?)
    ensures r.Failure? ==> r.error == NotAnInteger
    ensures r.Success? ==> INT64_MIN <= r.value <= INT64_MAX
  {
    SignBitEight();
    match input
    case Num(n) => Success(ToSigned(ToUnsigned(n, 8), 8))
    case Str(s) => Success(Strtoll(s))
    case _ => Failure(NotAnInteger)
  }

  /**
   * The uint64_t `writeUInt64` stores for its input: a Number's integer value modulo 2^64, a
   * String's strtoull reading; anything else is refused.
   */
  function UInt64Input(input: Value): (r: Result<nat>)
    ensures r.Failure? <==> !(input.Num? || input.Str?)
    ensures r.Failure? ==> r.error == NotAnInteger
    ensures r.Success? ==> r.value <= UINT64_MAX
  {
    SignBitEight();
    match input
    case Num(n) => Success(ToUnsigned(n, 8))
    case Str(s) => Success(Strtoull(s))
    case _ => Failure(NotAnInteger)
  }

  /**
   * Whatever `readInt64` returns, Number or String, `writeInt64` takes back as the very same
   * int64_t: the text branch is read by strtoll exactly as snprintf printed it.
   */
  lemma Int64ValueRoundTrip(v: int)
    requires INT64_MIN <= v <= INT64_MAX
    ensures Int64Input(Int64Value(v)) == Success(v)
  {
    SignBitEight();
    if Int64Value(v).Str? {
      StrtollFormat(v);
    } else {
      SignedRoundTrip(v, 8);
    }
  }

  /** The same for the unsigned pair. */
  lemma UInt64ValueRoundTrip(v: nat)
    requires v <= UINT64_MAX
    ensures UInt64Input(UInt64Value(v)) == Success(v)
  {
    SignBitEight();
    if UInt64Value(v).Str? {
      StrtoullFormat(v);
    } else {
      ModSmall(v, TWO_64);
    }
  }

  /** An int64 survives the 8-byte two's-complement encoding in either byte order. */
  lemma Int64BytesRoundTrip(e: Endianness, v: int)
    requires INT64_MIN <= v <= INT64_MAX
    ensures ToSigned(Decode(e, Encode(e, ToUnsigned(v, 8), 8)), 8) == v
  {
    SignBitEight();
    DecodeEncode(e, ToUnsigned(v, 8), 8);
    SignedRoundTrip(v, 8);
  }

  /** A uint64 survives the 8-byte encoding in either byte order. */
  lemma UInt64BytesRoundTrip(e: Endianness, v: nat)
    requires v <= UINT64_MAX
    ensures Decode(e, Encode(e, v, 8)) == v
  {
    SignBitEight();
    DecodeEncode(e, v, 8);
  }
}
