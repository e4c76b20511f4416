/**
 * The native addon (src/binding.cc) over the abstract memory: every primitive computes the
 * machine address `Buffer::Data(buf) + offset` and reads or writes through it with no
 * bounds check against the Buffer's length. Reads refuse the NULL address; the writers
 * have no such check, and since address 0 is never mapped a write there is `Unmapped`.
 */
module Binding {
  import opened Wrappers
  import opened Bytes
  import opened Native
  import opened Heap
  import opened Decimal
  import opened Int64

  /** `Buffer::Data(buf) + offset` as a machine address: pointer arithmetic wraps around. */
  function Ptr(m: Memory, buf: Region, offset: int): (p: nat)
    requires m.platform.Valid()
    ensures p < m.platform.AddressLimit()
    ensures 0 <= buf.address + offset < m.platform.AddressLimit() ==> p == buf.address + offset
  {
    var a, limit := buf.address + offset, m.platform.AddressLimit();
    if 0 <= a < limit then ModSmall(a, limit); a % limit else a % limit
  }

  /**
   * The `NULL` Buffer the addon exports: length 0, so JavaScript cannot index it, and its
   * data is the NULL address.
   */
  method NullBuffer() returns (r: Region)
    ensures fresh(r) && r.address == 0 && r.length == 0
    ensures r.typeSpec == None && r.refs == None
  {
    r := new Region(0, 0);
  }

  /** `isNull(buf, offset)`: the address is NULL. */
  predicate IsNull(m: Memory, buf: Region, offset: int)
    requires m.platform.Valid()
  {
    Ptr(m, buf, offset) == 0
  }

  /**
   * `address(buf, offset)`: the address as a signed `intptr_t`. It is zero exactly for the
   * NULL address, and its bit pattern is the address itself.
   */
  function Address(m: Memory, buf: Region, offset: int): (a: int)
    requires m.platform.Valid()
    ensures -SignBit(m.platform.PointerSize()) <= a < SignBit(m.platform.PointerSize())
    ensures ToUnsigned(a, m.platform.PointerSize()) == Ptr(m, buf, offset)
    ensures a == 0 <==> IsNull(m, buf, offset)
  {
    UnsignedRoundTrip(Ptr(m, buf, offset), m.platform.PointerSize());
    ToSigned(Ptr(m, buf, offset), m.platform.PointerSize())
  }

  /** An integer stored in an n-byte slot reads back as itself. */
  lemma SlotRoundTrip(bytes: map<int, byte>, p: int, e: Endianness, v: nat, n: nat)
    requires Mapped(bytes, p, n) && v < Pow256(n)
    ensures Decode(e, Load(Store(bytes, p, Encode(e, v, n)), p, n)) == v
  {
    DecodeEncode(e, v, n);
  }

  // Pointers.

  /**
   * The address `readPointer` finds at buf + offset: refused at NULL, `Unmapped` when the
   * pointer-sized slot is not memory, otherwise the slot's bytes read in machine order.
   */
  function PointerAt(m: Memory, buf: Region, offset: int): (r: Result<nat>)
    requires m.Valid()
    reads m
    ensures IsNull(m, buf, offset) ==> r == Failure(NullPointer)
    ensures !IsNull(m, buf, offset) && !Mapped(m.bytes, Ptr(m, buf, offset), m.platform.PointerSize())
            ==> r == Failure(Unmapped)
    ensures r.Success? ==> r.value < m.platform.AddressLimit()
  {
    var p, n := Ptr(m, buf, offset), m.platform.PointerSize();
    if p == 0 then Failure(NullPointer)
    else if !Mapped(m.bytes, p, n) then Failure(Unmapped)
    else Success(Decode(m.platform.endianness, Load(m.bytes, p, n)))
  }

  /** `readPointer(buf, offset, size)`: a new view of `size` bytes at the address stored there. */
  method ReadPointer(m: Memory, buf: Region, offset: int, size: int) returns (r: Result<Region>)
    requires m.Valid()
    ensures r.Success? <==> PointerAt(m, buf, offset).Success?
    ensures r.Failure? ==> r.error == PointerAt(m, buf, offset).error
    ensures r.Success? ==> fresh(r.value) && r.value.address == PointerAt(m, buf, offset).value
    ensures r.Success? ==> r.value.length == ToUint32(size)
    ensures r.Success? ==> r.value.typeSpec == None && r.value.refs == None
  {
    var a :- PointerAt(m, buf, offset);
    var view := new Region(a, ToUint32(size));
    return Success(view);
  }

  /** The address `writePointer` stores for its input: NULL for null, else the Buffer's data. */
  function StoredAddress(m: Memory, input: Value): (a: nat)
    requires m.platform.Valid()
    ensures a < m.platform.AddressLimit()
    ensures input.Buf? && input.r.address < m.platform.AddressLimit() ==> a == input.r.address
    ensures !input.Buf? ==> a == 0
  {
    if input.Buf? then
      var limit := m.platform.AddressLimit();
      if input.r.address < limit then ModSmall(input.r.address, limit); input.r.address % limit
      else input.r.address % limit
    else 0
  }

  /**
   * `writePointer(buf, offset, input)`: refuses an input that is neither null nor a Buffer,
   * then stores the input's address in the pointer-sized slot at buf + offset.
   */
  method WritePointer(m: Memory, buf: Region, offset: int, input: Value) returns (o: Outcome)
    requires m.Valid()
    modifies m
    ensures m.Valid() && m.handles == old(m.handles) && m.next == old(m.next)
    ensures !(input.Null? || input.Buf?) ==> o == Fail(NotABuffer)
    ensures (input.Null? || input.Buf?) && !Mapped(old(m.bytes), Ptr(m, buf, offset), m.platform.PointerSize())
            ==> o == Fail(Unmapped)
    ensures o.Fail? ==> m.bytes == old(m.bytes)
    ensures o.Pass? <==> (input.Null? || input.Buf?) && Mapped(old(m.bytes), Ptr(m, buf, offset), m.platform.PointerSize())
    ensures o.Pass? ==> m.bytes == Store(old(m.bytes), Ptr(m, buf, offset),
      Encode(m.platform.endianness, StoredAddress(m, input), m.platform.PointerSize()))
    ensures o.Pass? ==> PointerAt(m, buf, offset) == Success(StoredAddress(m, input))
  {
    if !(input.Null? || input.Buf?) {
      return Fail(NotABuffer);
    }
    var p, n, e := Ptr(m, buf, offset), m.platform.PointerSize(), m.platform.endianness;
    if !Mapped(m.bytes, p, n) {
      return Fail(Unmapped);
    }
    var a := StoredAddress(m, input);
    ghost var before := m.bytes;
    m.bytes := Store(m.bytes, Ptr(m, buf, offset), Encode(e, StoredAddress(m, input), m.platform.PointerSize()));
    KeysBelow(before, m.bytes, m.next);
    DecodeEncode(e, a, n);
    assert p in m.bytes;
    return Pass;
  }

  // 64-bit integers.

  /** The int64_t stored at buf + offset; refused at NULL and where the 8 bytes are not memory. */
  function StoredInt64(m: Memory, buf: Region, offset: int): (r: Result<int>)
    requires m.Valid()
    reads m
    ensures IsNull(m, buf, offset) ==> r == Failure(NullPointer)
    ensures !IsNull(m, buf, offset) && !Mapped(m.bytes, Ptr(m, buf, offset), 8) ==> r == Failure(Unmapped)
    ensures r.Success? ==> INT64_MIN <= r.value <= INT64_MAX
  {
    SignBitEight();
    var p := Ptr(m, buf, offset);
    if p == 0 then Failure(NullPointer)
    else if !Mapped(m.bytes, p, 8) then Failure(Unmapped)
    else Success(ToSigned(Decode(m.platform.endianness, Load(m.bytes, p, 8)), 8))
  }

  /** The uint64_t stored at buf + offset, with the same refusals. */
  function StoredUInt64(m: Memory, buf: Region, offset: int): (r: Result<nat>)
    requires m.Valid()
    reads m
    ensures IsNull(m, buf, offset) ==> r == Failure(NullPointer)
    ensures !IsNull(m, buf, offset) && !Mapped(m.bytes, Ptr(m, buf, offset), 8) ==> r == Failure(Unmapped)
    ensures r.Success? ==> r.value < TWO_64
  {
    SignBitEight();
    var p := Ptr(m, buf, offset);
    if p == 0 then Failure(NullPointer)
    else if !Mapped(m.bytes, p, 8) then Failure(Unmapped)
    else Success(Decode(m.platform.endianness, Load(m.bytes, p, 8)))
  }

  /**
   * `readInt64(buf, offset)`: a Number exactly when the stored value lies within ±2^53, its
   * decimal text otherwise; either way, the value `writeInt64` reads back as that integer.
   */
  function ReadInt64(m: Memory, buf: Region, offset: int): (r: Result<Value>)
    requires m.Valid()
    reads m
    ensures r.Failure? <==> StoredInt64(m, buf, offset).Failure?
    ensures r.Failure? ==> r.error == StoredInt64(m, buf, offset).error
    ensures r.Success? ==> (r.value.Num? <==> JS_MIN_INT <= StoredInt64(m, buf, offset).value <= JS_MAX_INT)
    ensures r.Success? ==> Int64Input(r.value) == StoredInt64(m, buf, offset)
  {
    var v :- StoredInt64(m, buf, offset);
    Int64ValueRoundTrip(v);
    Success(Int64Value(v))
  }

  /** `readUInt64(buf, offset)`: a Number exactly up to 2^53, the decimal text beyond. */
  function ReadUInt64(m: Memory, buf: Region, offset: int): (r: Result<Value>)
    requires m.Valid()
    reads m
    ensures r.Failure? <==> StoredUInt64(m, buf, offset).Failure?
    ensures r.Failure? ==> r.error == StoredUInt64(m, buf, offset).error
    ensures r.Success? ==> (r.value.Num? <==> StoredUInt64(m, buf, offset).value <= JS_MAX_INT)
    ensures r.Success? ==> UInt64Input(r.value) == StoredUInt64(m, buf, offset)
  {
    var v :- StoredUInt64(m, buf, offset);
    SignBitEight();
    UInt64ValueRoundTrip(v);
    Success(UInt64Value(v))
  }

  /**
   * `writeInt64(buf, offset, input)`: refuses an input that is neither a Number nor a String
   * before touching memory, then stores the 8-byte two's-complement pattern in machine
   * order. What it stores, `readInt64` reads back as that same integer.
   */
  method WriteInt64(m: Memory, buf: Region, offset: int, input: Value) returns (o: Outcome)
    requires m.Valid()
    modifies m
    ensures m.Valid() && m.handles == old(m.handles) && m.next == old(m.next)
    ensures Int64Input(input).Failure? ==> o == Fail(NotAnInteger)
    ensures Int64Input(input).Success? && !Mapped(old(m.bytes), Ptr(m, buf, offset), 8) ==> o == Fail(Unmapped)
    ensures o.Fail? ==> m.bytes == old(m.bytes)
    ensures o.Pass? <==> Int64Input(input).Success? && Mapped(old(m.bytes), Ptr(m, buf, offset), 8)
    ensures o.Pass? ==> m.bytes == Store(old(m.bytes), Ptr(m, buf, offset),
      Encode(m.platform.endianness, ToUnsigned(Int64Input(input).value, 8), 8))
    ensures o.Pass? ==> OnlyAt(old(m.bytes), m.bytes, Ptr(m, buf, offset), 8)
    ensures o.Pass? ==> StoredInt64(m, buf, offset) == Int64Input(input)
  {
    if Int64Input(input).Failure? {
      return Fail(NotAnInteger);
    }
    var v := Int64Input(input).value;
    var p, e := Ptr(m, buf, offset), m.platform.endianness;
    if !Mapped(m.bytes, p, 8) {
      return Fail(Unmapped);
    }
    ghost var before := m.bytes;
    m.bytes := Store(m.bytes, Ptr(m, buf, offset), Encode(e, ToUnsigned(Int64Input(input).value, 8), 8));
    KeysBelow(before, m.bytes, m.next);
    Int64BytesRoundTrip(e, v);
    assert p in m.bytes;
    return Pass;
  }

  /** `writeUInt64(buf, offset, input)`: the unsigned counterpart of `WriteInt64`. */
  method WriteUInt64(m: Memory, buf: Region, offset: int, input: Value) returns (o: Outcome)
    requires m.Valid()
    modifies m
    ensures m.Valid() && m.handles == old(m.handles) && m.next == old(m.next)
    ensures UInt64Input(input).Failure? ==> o == Fail(NotAnInteger)
    ensures UInt64Input(input).Success? && !Mapped(old(m.bytes), Ptr(m, buf, offset), 8) ==> o == Fail(Unmapped)
    ensures o.Fail? ==> m.bytes == old(m.bytes)
    ensures o.Pass? <==> UInt64Input(input).Success? && Mapped(old(m.bytes), Ptr(m, buf, offset), 8)
    ensures o.Pass? ==> m.bytes == Store(old(m.bytes), Ptr(m, buf, offset),
      Encode(m.platform.endianness, UInt64Input(input).value, 8))
    ensures o.Pass? ==> OnlyAt(old(m.bytes), m.bytes, Ptr(m, buf, offset), 8)
    ensures o.Pass? ==> StoredUInt64(m, buf, offset) == UInt64Input(input)
  {
    if UInt64Input(input).Failure? {
      return Fail(NotAnInteger);
    }
    var v := UInt64Input(input).value;
    var p, e := Ptr(m, buf, offset), m.platform.endianness;
    if !Mapped(m.bytes, p, 8) {
      return Fail(Unmapped);
    }
    ghost var before := m.bytes;
    m.bytes := Store(m.bytes, Ptr(m, buf, offset), Encode(e, UInt64Input(input).value, 8));
    KeysBelow(before, m.bytes, m.next);
    UInt64BytesRoundTrip(e, v);
    assert p in m.bytes;
    return Pass;
  }

  // C strings and views.

  /**
   * `readCString(buf, offset)`: the bytes from buf + offset up to the first NUL, whatever
   * the Buffer's length; refused at NULL, `Unmapped` when no NUL is met inside memory.
   */
  function ReadCString(m: Memory, buf: Region, offset: int): (r: Result<Value>)
    requires m.Valid()
    reads m
    ensures IsNull(m, buf, offset) ==> r == Failure(NullPointer)
    ensures r.Failure? ==> r.error == NullPointer || r.error == Unmapped
    ensures r.Success? ==> r.value.Str? && Terminated(m.bytes, Ptr(m, buf, offset), |r.value.s|)
    ensures r.Success? ==> r.value.s == Load(m.bytes, Ptr(m, buf, offset), |r.value.s|)
    ensures !IsNull(m, buf, offset) && (exists n :: Terminated(m.bytes, Ptr(m, buf, offset), n)) ==> r.Success?
  {
    var p := Ptr(m, buf, offset);
    if p == 0 then Failure(NullPointer)
    else
      match CStringAt(m.bytes, p)
      case None =>
        assert forall n :: !Terminated(m.bytes, p, n) by {
          forall n | Terminated(m.bytes, p, n) ensures false {
            CStringAtTerminated(m.bytes, p, n);
          }
        }
        Failure(Unmapped)
      case Some(s) => Success(Str(s))
  }

  /** `reinterpret(buf, size, offset)`: a view of `size` bytes at buf + offset; refused at NULL. */
  method ReinterpretBuffer(m: Memory, buf: Region, size: int, offset: int) returns (r: Result<Region>)
    requires m.Valid()
    ensures IsNull(m, buf, offset) <==> r.Failure?
    ensures r.Failure? ==> r.error == NullPointer
    ensures r.Success? ==> fresh(r.value) && r.value.address == Ptr(m, buf, offset)
    ensures r.Success? ==> r.value.length == ToUint32(size) && r.value.typeSpec == None && r.value.refs == None
  {
    if IsNull(m, buf, offset) {
      return Failure(NullPointer);
    }
    var view := new Region(Ptr(m, buf, offset), ToUint32(size));
    return Success(view);
  }

  /** The most bytes `reinterpretUntilZeros` scans before it gives up. */
  const SCAN_LIMIT: nat := 10000

  /** The n bytes at q are memory and all zero. */
  predicate ZeroGroup(bytes: map<int, byte>, q: int, n: nat) {
    forall k :: q <= k < q + n ==> k in bytes && bytes[k] == 0
  }

  /** Some byte of the n at ptr + g is memory and not zero. */
  predicate NonzeroGroupAt(bytes: map<int, byte>, ptr: int, g: int, n: nat) {
    exists k :: ptr + g <= k < ptr + g + n && k in bytes && bytes[k] != 0
  }

  /**
   * The inner loop of the scan from byte i of the group at q: `Success(true)` when the
   * rest of the group is zero, `Success(false)` at the first non-zero byte, and `Unmapped`
   * when it reaches a byte that is not memory first.
   */
  function GroupFrom(bytes: map<int, byte>, q: int, i: nat, n: nat): (r: Result<bool>)
    requires i <= n
    ensures r == Success(true) ==> forall k :: q + i <= k < q + n ==> k in bytes && bytes[k] == 0
    ensures r == Success(false) ==> i < n && exists k :: q + i <= k < q + n && k in bytes && bytes[k] != 0
    ensures r.Failure? ==> r.error == Unmapped
    decreases n - i
  {
    if i == n then Success(true)
    else if q + i !in bytes then Failure(Unmapped)
    else if bytes[q + i] != 0 then Success(false)
    else GroupFrom(bytes, q, i + 1, n)
  }

  /**
   * The outer loop of the scan, from `size` on: stop at the cap, or at the first group of
   * n zero bytes; otherwise step n bytes on.
   */
  function ScanFrom(bytes: map<int, byte>, ptr: int, n: nat, size: nat): Result<nat>
    decreases SCAN_LIMIT - size
  {
    if size >= SCAN_LIMIT then Success(size)
    else
      match GroupFrom(bytes, ptr + size, 0, n)
      case Failure(e) => Failure(e)
      case Success(allZero) => if allZero then Success(size) else ScanFrom(bytes, ptr, n, size + n)
  }

  /**
   * What a scan result L means: a multiple of n below the cap plus n (0 when n is 0); unless
   * the cap was reached, the n bytes at L are zero; every earlier aligned group is not.
   */
  predicate ZeroScanResult(bytes: map<int, byte>, ptr: int, n: nat, L: nat) {
    (n == 0 ==> L == 0)
    && (n > 0 ==> L % n == 0)
    && L < SCAN_LIMIT + n
    && (L < SCAN_LIMIT ==> ZeroGroup(bytes, ptr + L, n))
    && forall g :: 0 <= g < L && (n > 0 ==> g % n == 0) ==> NonzeroGroupAt(bytes, ptr, g, n)
  }

  /** The scan from an aligned position past non-zero groups ends at a meaningful length. */
  lemma {:induction false} ScanFromFacts(bytes: map<int, byte>, ptr: int, n: nat, size: nat)
    requires n == 0 ==> size == 0
    requires n > 0 ==> size % n == 0
    requires size < SCAN_LIMIT + n
    requires forall g :: 0 <= g < size && (n > 0 ==> g % n == 0) ==> NonzeroGroupAt(bytes, ptr, g, n)
    ensures ScanFrom(bytes, ptr, n, size).Success? ==> ZeroScanResult(bytes, ptr, n, ScanFrom(bytes, ptr, n, size).value)
    decreases SCAN_LIMIT - size
  {
    if size < SCAN_LIMIT {
      var grp := GroupFrom(bytes, ptr + size, 0, n);
      if grp == Success(false) {
        assert NonzeroGroupAt(bytes, ptr, size, n);
        forall g | 0 <= g < size + n && g % n == 0
          ensures NonzeroGroupAt(bytes, ptr, g, n)
        {
          if g >= size {
            AlignedStep(g, size, n);
          }
        }
        ModStep(size, n);
        ScanFromFacts(bytes, ptr, n, size + n);
      }
    }
  }

  /** Between two consecutive multiples of n lies no other multiple. */
  lemma AlignedStep(g: int, size: int, n: int)
    requires n > 0 && size % n == 0 && g % n == 0 && size <= g < size + n
    ensures g == size
  {
    var a, b := g / n, size / n;
    assert g == a * n && size == b * n;
    assert g - size == (a - b) * n;
    MulRange(a - b, n);
  }

  lemma ModStep(size: nat, n: nat)
    requires n > 0 && size % n == 0
    ensures (size + n) % n == 0
  {
    var b := size / n;
    assert size == b * n;
    assert size + n == (b + 1) * n;
    MultipleMod(size + n, b + 1, n);
  }

  /** A non-zero multiple of n is at least n away from zero. */
  lemma MulRange(q: int, n: int)
    requires n > 0
    ensures q >= 1 ==> q * n >= n
    ensures q <= -1 ==> q * n <= -n
  {
    MulBounds(q, n);
  }

  lemma MultipleMod(x: int, k: int, n: int)
    requires n > 0 && x == k * n
    ensures x % n == 0
  {
    var q, r := x / n, x % n;
    assert x == q * n + r;
    assert r == (k - q) * n;
    MulRange(k - q, n);
  }

  /**
   * The loop of `reinterpretUntilZeros` at the address ptr: it steps through the memory in
   * groups of numZeros bytes, at most up to the cap, until a group is all zero.
   */
  method ScanUntilZeros(bytes: map<int, byte>, ptr: int, numZeros: nat) returns (r: Result<nat>)
    ensures r == ScanFrom(bytes, ptr, numZeros, 0)
    ensures r.Failure? ==> r.error == Unmapped
    ensures r.Success? ==> ZeroScanResult(bytes, ptr, numZeros, r.value)
  {
    ScanFromFacts(bytes, ptr, numZeros, 0);
    ScanFailure(bytes, ptr, numZeros, 0);
    var size: nat := 0;
    var end := false;
    while !end && size < SCAN_LIMIT
      invariant end ==> ScanFrom(bytes, ptr, numZeros, 0) == Success(size)
      invariant !end ==> ScanFrom(bytes, ptr, numZeros, 0) == ScanFrom(bytes, ptr, numZeros, size)
      decreases SCAN_LIMIT - size, if end then 0 else 1
    {
      end := true;
      var i: nat := 0;
      while i < numZeros
        invariant i <= numZeros && end
        invariant GroupFrom(bytes, ptr + size, 0, numZeros) == GroupFrom(bytes, ptr + size, i, numZeros)
      {
        if ptr + size + i !in bytes {
          return Failure(Unmapped);
        }
        if bytes[ptr + size + i] != 0 {
          end := false;
          break;
        }
        i := i + 1;
      }
      if !end {
        size := size + numZeros;
      }
    }
    return Success(size);
  }

  /** The scan fails only on memory that is not mapped. */
  lemma {:induction false} ScanFailure(bytes: map<int, byte>, ptr: int, n: nat, size: nat)
    ensures ScanFrom(bytes, ptr, n, size).Failure? ==> ScanFrom(bytes, ptr, n, size).error == Unmapped
    decreases SCAN_LIMIT - size
  {
    if size < SCAN_LIMIT && GroupFrom(bytes, ptr + size, 0, n) == Success(false) {
      ScanFailure(bytes, ptr, n, size + n);
    }
  }

  /**
   * `reinterpretUntilZeros(buf, numZeros, offset)`: a view at buf + offset whose length is
   * the scan's result; refused at NULL.
   */
  method ReinterpretUntilZeros(m: Memory, buf: Region, numZeros: int, offset: int) returns (r: Result<Region>)
    requires m.Valid()
    ensures IsNull(m, buf, offset) ==> r == Failure(NullPointer)
    ensures !IsNull(m, buf, offset) ==> r.Success? == ScanFrom(m.bytes, Ptr(m, buf, offset), ToUint32(numZeros), 0).Success?
    ensures r.Failure? ==> r.error == NullPointer || r.error == Unmapped
    ensures r.Success? ==> fresh(r.value) && r.value.address == Ptr(m, buf, offset) && r.value.typeSpec == None && r.value.refs == None
    ensures r.Success? ==> r.value.length == ScanFrom(m.bytes, Ptr(m, buf, offset), ToUint32(numZeros), 0).value
    ensures r.Success? ==> ZeroScanResult(m.bytes, Ptr(m, buf, offset), ToUint32(numZeros), r.value.length)
  {
    if IsNull(m, buf, offset) {
      return Failure(NullPointer);
    }
    var p := Ptr(m, buf, offset);
    var size :- ScanUntilZeros(m.bytes, p, ToUint32(numZeros));
    var view := new Region(p, size);
    return Success(view);
  }

  // Objects.

  /** `sizeof.Object`: the width of the handle slot `writeObject` fills. */
  function ObjectSlot(m: Memory): (n: nat)
    requires m.platform.Valid()
    ensures n >= 1
  {
    m.platform.sizeOf["Object"]
  }

  /**
   * `readObject(buf, offset)`: the object whose handle is stored at buf + offset. Refused at
   * NULL; `NoHandle` when the slot holds no handle `writeObject` created.
   */
  function ReadObject(m: Memory, buf: Region, offset: int): (r: Result<Value>)
    requires m.Valid()
    reads m
    ensures IsNull(m, buf, offset) ==> r == Failure(NullPointer)
    ensures !IsNull(m, buf, offset) && !Mapped(m.bytes, Ptr(m, buf, offset), ObjectSlot(m)) ==> r == Failure(Unmapped)
    ensures r.Success? ==> r.value in m.handles
  {
    var p, n := Ptr(m, buf, offset), ObjectSlot(m);
    if p == 0 then Failure(NullPointer)
    else if !Mapped(m.bytes, p, n) then Failure(Unmapped)
    else
      var id := Decode(m.platform.endianness, Load(m.bytes, p, n));
      if 1 <= id <= |m.handles| then Success(m.handles[id - 1]) else Failure(NoHandle)
  }

  /**
   * Whether `writeObject` at buf + offset succeeds from memory bytes holding the given number
   * of handles: the slot is memory, and the number of the next handle fits the slot.
   */
  predicate ObjectWritable(m: Memory, bytes: map<int, byte>, handles: nat, buf: Region, offset: int)
    requires m.platform.Valid()
  {
    Mapped(bytes, Ptr(m, buf, offset), ObjectSlot(m)) && handles + 1 < Pow256(ObjectSlot(m))
  }

  /**
   * `writeObject(buf, offset, obj)`: makes a new handle for obj and stores it in the slot at
   * buf + offset, after which `readObject` there gives obj back.
   */
  method WriteObject(m: Memory, buf: Region, offset: int, obj: Value) returns (o: Outcome)
    requires m.Valid()
    modifies m
    ensures m.Valid() && m.next == old(m.next)
    ensures !Mapped(old(m.bytes), Ptr(m, buf, offset), ObjectSlot(m)) ==> o == Fail(Unmapped)
    ensures Mapped(old(m.bytes), Ptr(m, buf, offset), ObjectSlot(m)) && |old(m.handles)| + 1 >= Pow256(ObjectSlot(m))
            ==> o == Fail(OutOfMemory)
    ensures o.Pass? <==> ObjectWritable(m, old(m.bytes), |old(m.handles)|, buf, offset)
    ensures o.Fail? ==> m.bytes == old(m.bytes) && m.handles == old(m.handles)
    ensures o.Pass? ==> m.handles == old(m.handles) + [obj] && Mapped(old(m.bytes), Ptr(m, buf, offset), ObjectSlot(m))
    ensures o.Pass? ==> m.bytes == Store(old(m.bytes), Ptr(m, buf, offset),
      Encode(m.platform.endianness, |m.handles|, ObjectSlot(m)))
    ensures o.Pass? ==> ReadObject(m, buf, offset) == Success(obj)
  {
    if !Mapped(m.bytes, Ptr(m, buf, offset), ObjectSlot(m)) {
      return Fail(Unmapped);
    }
    if |m.handles| + 1 >= Pow256(ObjectSlot(m)) {
      return Fail(OutOfMemory);
    }
    assert ObjectWritable(m, old(m.bytes), |old(m.handles)|, buf, offset);
    m.handles := m.handles + [obj];
    SlotRoundTrip(m.bytes, Ptr(m, buf, offset), m.platform.endianness, |m.handles|, ObjectSlot(m));
    ghost var before := m.bytes;
    m.bytes := Store(m.bytes, Ptr(m, buf, offset), Encode(m.platform.endianness, |m.handles|, ObjectSlot(m)));
    KeysBelow(before, m.bytes, m.next);
    ObjectReadBack(m, buf, offset);
    return Pass;
  }

  /** A slot holding the number of the newest handle reads back as that handle's object. */
  lemma ObjectReadBack(m: Memory, buf: Region, offset: int)
    requires m.Valid() && |m.handles| >= 1
    requires Mapped(m.bytes, Ptr(m, buf, offset), ObjectSlot(m))
    requires Decode(m.platform.endianness, Load(m.bytes, Ptr(m, buf, offset), ObjectSlot(m))) == |m.handles|
    ensures ReadObject(m, buf, offset) == Success(m.handles[|m.handles| - 1])
  {
    assert Ptr(m, buf, offset) in m.bytes;
  }
}
