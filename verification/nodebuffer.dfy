/**
 * The accessors of Node's own Buffer that the builtin types of lib/ref.js call: the checked
 * integer readers and writers (`readInt8` ... `writeUInt32LE`) and plain indexing
 * `buffer[j]`. Node itself is not part of this model; these members state the behaviour
 * lib/ref.js relies on. The checked accessors work on `Buffer::Data(buf) + offset`, refuse an
 * access that does not lie inside the Buffer, and the writers refuse a value that is not a
 * number of their width.
 */
module NodeBuffer {
  import opened Wrappers
  import opened Bytes
  import opened Types
  import opened Heap

  /** The n bytes at offset lie inside the Buffer. */
  predicate InBounds(buf: Region, offset: int, n: nat) {
    0 <= offset && offset + n <= buf.length
  }

  /** The numbers the checked accessor of width w and the given signedness can hold. */
  predicate InRange(w: Width, signed: bool, n: int) {
    if signed then -SignBit(w.Octets()) <= n < SignBit(w.Octets()) else 0 <= n < Pow256(w.Octets())
  }

  /** The number a bit pattern of width w denotes, as a signed or an unsigned integer. */
  function FromPattern(w: Width, signed: bool, u: nat): (n: int)
    requires u < Pow256(w.Octets())
    ensures InRange(w, signed, n)
    ensures !signed ==> n == u
    ensures signed ==> ToUnsigned(n, w.Octets()) == u
  {
    if signed then UnsignedRoundTrip(u, w.Octets()); ToSigned(u, w.Octets()) else u
  }

  /**
   * The bit pattern a checked writer stores for v: a non-number is refused, a number outside
   * the width is refused, and every other number is stored as the pattern it reads back as.
   */
  function CheckedPattern(w: Width, signed: bool, v: Value): (r: Result<nat>)
    ensures r.Failure? <==> !(v.Num? && InRange(w, signed, v.n))
    ensures r.Failure? ==> r.error == (if v.Num? then ValueOutOfRange else NotANumber)
    ensures r.Success? ==> r.value < Pow256(w.Octets()) && FromPattern(w, signed, r.value) == v.n
  {
    if !v.Num? then Failure(NotANumber)
    else if !InRange(w, signed, v.n) then Failure(ValueOutOfRange)
    else if signed then
      SignedRoundTrip(v.n, w.Octets());
      Success(ToUnsigned(v.n, w.Octets()))
    else Success(v.n)
  }

  /** Every pattern is what the writer stores for the number that pattern denotes. */
  lemma PatternRoundTrip(w: Width, signed: bool, u: nat)
    requires u < Pow256(w.Octets())
    ensures CheckedPattern(w, signed, Num(FromPattern(w, signed, u))) == Success(u)
  {
    if signed {
      UnsignedRoundTrip(u, w.Octets());
    }
  }

  /**
   * `readInt8(offset)` ... `readUInt32LE(offset)` in the machine's byte order: `OutOfBounds`
   * outside the Buffer, otherwise the number the bytes there denote. Whatever it reads, the
   * matching writer accepts and stores back as the same bytes.
   */
  function ReadChecked(m: Memory, buf: Region, offset: int, w: Width, signed: bool): (r: Result<Value>)
    requires m.Valid()
    reads m
    ensures r.Failure? <==> !InBounds(buf, offset, w.Octets()) || !Mapped(m.bytes, buf.address + offset, w.Octets())
    ensures r.Failure? ==> r.error == (if InBounds(buf, offset, w.Octets()) then Unmapped else OutOfBounds)
    ensures r.Success? ==> r.value.Num? && InRange(w, signed, r.value.n)
    ensures r.Success? ==> CheckedPattern(w, signed, r.value)
                           == Success(Decode(m.platform.endianness, Load(m.bytes, buf.address + offset, w.Octets())))
  {
    var n := w.Octets();
    if !InBounds(buf, offset, n) then Failure(OutOfBounds)
    else if !Mapped(m.bytes, buf.address + offset, n) then Failure(Unmapped)
    else
      var u := Decode(m.platform.endianness, Load(m.bytes, buf.address + offset, n));
      PatternRoundTrip(w, signed, u);
      Success(Num(FromPattern(w, signed, u)))
  }

  /**
   * `writeInt8(v, offset)` ... `writeUInt32LE(v, offset)` in the machine's byte order: the
   * bounds are checked first, then the value; after a write the reader gives v back.
   */
  method WriteChecked(m: Memory, buf: Region, offset: int, w: Width, signed: bool, v: Value) returns (o: Outcome)
    requires m.Valid()
    modifies m
    ensures m.Valid() && m.handles == old(m.handles) && m.next == old(m.next)
    ensures !InBounds(buf, offset, w.Octets()) ==> o == Fail(OutOfBounds)
    ensures InBounds(buf, offset, w.Octets()) && CheckedPattern(w, signed, v).Failure?
            ==> o == Fail(CheckedPattern(w, signed, v).error)
    ensures InBounds(buf, offset, w.Octets()) && CheckedPattern(w, signed, v).Success?
            && !Mapped(old(m.bytes), buf.address + offset, w.Octets())
            ==> o == Fail(Unmapped)
    ensures o.Fail? ==> m.bytes == old(m.bytes)
    ensures o.Pass? <==> InBounds(buf, offset, w.Octets()) && CheckedPattern(w, signed, v).Success?
                         && Mapped(old(m.bytes), buf.address + offset, w.Octets())
    ensures o.Pass? ==> m.bytes == Store(old(m.bytes), buf.address + offset,
      Encode(m.platform.endianness, CheckedPattern(w, signed, v).value, w.Octets()))
    ensures o.Pass? ==> OnlyAt(old(m.bytes), m.bytes, buf.address + offset, w.Octets())
    ensures o.Pass? ==> ReadChecked(m, buf, offset, w, signed) == Success(v)
  {
    var n, e := w.Octets(), m.platform.endianness;
    if !InBounds(buf, offset, n) {
      return Fail(OutOfBounds);
    }
    var pattern := CheckedPattern(w, signed, v);
    if pattern.Failure? {
      return Fail(pattern.error);
    }
    var a := buf.address + offset;
    if !Mapped(m.bytes, a, n) {
      return Fail(Unmapped);
    }
    ghost var before := m.bytes;
    // Spelled as in the postcondition: integer-valued locals would leave the two stores
    // equal only through map extensionality.
    m.bytes := Store(m.bytes, buf.address + offset, Encode(e, pattern.value, w.Octets()));
    KeysBelow(before, m.bytes, m.next);
    CheckedReadBack(m, buf, offset, w, signed, v);
    return Pass;
  }

  /** Bytes holding the pattern the writer stores for v read back as v. */
  lemma CheckedReadBack(m: Memory, buf: Region, offset: int, w: Width, signed: bool, v: Value)
    requires m.Valid() && InBounds(buf, offset, w.Octets()) && CheckedPattern(w, signed, v).Success?
    requires Mapped(m.bytes, buf.address + offset, w.Octets())
    requires Load(m.bytes, buf.address + offset, w.Octets())
             == Encode(m.platform.endianness, CheckedPattern(w, signed, v).value, w.Octets())
    ensures ReadChecked(m, buf, offset, w, signed) == Success(v)
  {
    var u := CheckedPattern(w, signed, v).value;
    DecodeEncode(m.platform.endianness, u, w.Octets());
    PatternRoundTrip(w, signed, u);
  }

  /**
   * `buffer[j]`, as the byte it becomes when it is stored into another Buffer: an index
   * outside the Buffer reads `undefined`, which a byte store turns into 0.
   */
  function IndexGet(bytes: map<int, byte>, buf: Region, j: int): (r: Result<byte>)
    ensures r.Failure? <==> 0 <= j < buf.length && buf.address + j !in bytes
    ensures r.Failure? ==> r.error == Unmapped
    ensures r.Success? && 0 <= j < buf.length ==> r.value == bytes[buf.address + j]
    ensures !(0 <= j < buf.length) ==> r == Success(0)
  {
    if !(0 <= j < buf.length) then Success(0)
    else if buf.address + j !in bytes then Failure(Unmapped)
    else Success(bytes[buf.address + j])
  }

  /** `buffer[j] = x`: a store outside the Buffer is ignored. */
  function IndexSet(bytes: map<int, byte>, buf: Region, j: int, x: byte): (r: Result<map<int, byte>>)
    ensures r.Failure? <==> 0 <= j < buf.length && buf.address + j !in bytes
    ensures r.Failure? ==> r.error == Unmapped
    ensures r.Success? ==> r.value.Keys == bytes.Keys
    ensures r.Success? ==> forall k {:trigger r.value[k]} :: k in bytes ==>
      r.value[k] == (if 0 <= j < buf.length && k == buf.address + j then x else bytes[k])
  {
    if !(0 <= j < buf.length) then Success(bytes)
    else if buf.address + j !in bytes then Failure(Unmapped)
    else Success(bytes[buf.address + j := x])
  }
}
