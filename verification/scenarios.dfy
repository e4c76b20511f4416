/**
 * The behaviour the package's own test cases check, stated over the model: a reference
 * to a Buffer dereferences back to that Buffer, one and two levels deep; dereferencing a
 * Buffer that never had a type fails; a written pointer reads back as the same memory; an
 * int64 survives a write and a read, also in the opposite byte order; a C string survives
 * `allocCString` and `readCString`.
 */
module Scenarios {
  import opened Wrappers
  import opened Bytes
  import opened Types
  import opened Heap
  import opened Int64
  import opened Ref
  import Binding
  import Retention
  import Reversal
  import opened Exports

  /** A Buffer as `new Buffer(...)` makes it: memory of the program, with no type yet. */
  predicate FreshBuffer(lib: Library, buf: Region)
    requires lib.Valid()
    reads lib, lib.mem, buf
  {
    buf.typeSpec == None && buf.address < lib.mem.platform.AddressLimit() && buf.length < TWO_32
  }

  /** There is memory left for n more bytes. */
  predicate Room(lib: Library, n: nat)
    requires lib.Valid()
    reads lib, lib.mem
  {
    lib.mem.next + n < lib.mem.platform.AddressLimit()
  }

  /**
   * `deref(ref(test))` gives a Buffer over the very memory of test: same address, same
   * length, and the default type that `ref` gave test.
   */
  method RefDerefOneLayer(lib: Library, test: Region) returns (r: Result<Value>)
    requires lib.Valid() && FreshBuffer(lib, test) && Room(lib, lib.mem.platform.PointerSize())
    modifies lib.mem, test
    ensures r.Success? && r.value.Buf?
    ensures r.value.r.address == test.address && r.value.r.length == test.length
    ensures r.value.r.typeSpec == test.typeSpec == Some(Desc(DefaultType(test.length)))
  {
    var one := lib.RefOf(test);
    r := lib.Deref(one.value);
  }

  /**
   * Two levels: `deref(ref(ref(test)))` is a Buffer at the address of `ref(test)` with its
   * length, and dereferencing that again gives test's address and length.
   */
  method RefDerefTwoLevels(lib: Library, test: Region) returns (one: Region, oneBack: Region, testBack: Region)
    requires lib.Valid() && FreshBuffer(lib, test) && Room(lib, 2 * lib.mem.platform.PointerSize())
    requires lib.mem.platform.PointerSize() < TWO_32
    modifies lib.mem, test
    ensures oneBack.address == one.address && oneBack.length == one.length
    ensures testBack.address == test.address && testBack.length == test.length
  {
    ghost var d := DefaultType(test.length);
    var r1 := lib.RefOf(test);
    one := r1.value;
    assert one.typeSpec == Some(Desc(RefType(d)));
    assert Binding.PointerAt(lib.mem, one, 0) == Success(test.address);
    ghost var p1, b1 := Binding.Ptr(lib.mem, one, 0), lib.mem.bytes;
    var r2 := lib.RefOf(one);
    var two := r2.value;
    assert two.typeSpec == Some(Desc(RefType(RefType(d))));
    LoadExtends(b1, lib.mem.bytes, p1, lib.mem.platform.PointerSize());
    assert Binding.PointerAt(lib.mem, one, 0) == Success(test.address);
    var v1 := lib.Deref(two);
    assert v1.Success?;
    oneBack := v1.value.r;
    assert oneBack.length == one.length;
    assert oneBack.address == one.address && oneBack.typeSpec == Some(Desc(RefType(d)));
    var v2 := lib.Deref(oneBack);
    testBack := v2.value.r;
  }

  /** Dereferencing `deref(ref(test))` again fails: its type is the default, whose getter throws. */
  method DerefUntyped(lib: Library, test: Region) returns (r: Result<Value>)
    requires lib.Valid() && FreshBuffer(lib, test) && Room(lib, lib.mem.platform.PointerSize())
    modifies lib.mem, test
    ensures r == Failure(UnknownType)
  {
    var one := lib.RefOf(test);
    var back := lib.Deref(one.value);
    r := lib.Deref(back.value.r);
  }

  /**
   * `writePointer(buf, 0, test)` and then `readPointer(buf, 0, test.length)`: a Buffer with
   * test's address and length, so the same bytes.
   */
  method PointerRoundTrip(m: Memory, buf: Region, test: Region) returns (out: Result<Region>)
    requires m.Valid() && Mapped(m.bytes, buf.address, m.platform.PointerSize())
    requires 1 <= test.address < m.platform.AddressLimit() && test.length < TWO_32
    modifies m, buf
    ensures out.Success? && out.value.address == test.address && out.value.length == test.length
    ensures Mapped(m.bytes, test.address, test.length) ==> Load(m.bytes, out.value.address, out.value.length) == Load(m.bytes, test.address, test.length)
  {
    assert buf.address + 0 in m.bytes;
    LoadMoved(m.bytes, buf.address, Binding.Ptr(m, buf, 0), m.platform.PointerSize());
    var o := Retention.WritePointer(m, buf, 0, Buf(test));
    out := Binding.ReadPointer(m, buf, 0, test.length);
  }

  /**
   * `writeInt64(buf, 0, val)` and then `readInt64(buf, 0)`: the same integer, and for a
   * Number within ±2^53 the very same Number.
   */
  method Int64RoundTrip(m: Memory, buf: Region, value: Value) returns (r: Result<Value>)
    requires m.Valid() && Mapped(m.bytes, buf.address, 8) && Int64Input(value).Success?
    modifies m
    ensures r.Success? && Int64Input(r.value) == Int64Input(value)
    ensures value.Num? && JS_MIN_INT <= value.n <= JS_MAX_INT ==> r == Success(value)
  {
    assert buf.address + 0 in m.bytes;
    LoadMoved(m.bytes, buf.address, Binding.Ptr(m, buf, 0), 8);
    var o := Binding.WriteInt64(m, buf, 0, value);
    r := Binding.ReadInt64(m, buf, 0);
    if value.Num? && JS_MIN_INT <= value.n <= JS_MAX_INT {
      SignBitEight();
      SignedRoundTrip(value.n, 8);
    }
  }

  /**
   * The opposite-endian writer and reader agree: an integer written by one is read back
   * by the other, over eight bytes of memory apart from the scratch Buffer.
   */
  method OppositeInt64RoundTrip(lib: Library, buf: Region, offset: int, value: Value) returns (r: Result<Value>)
    requires lib.Valid() && Int64Input(value).Success?
    requires Reversal.Whole(lib.mem.bytes, buf, offset) && Reversal.Apart(buf.address + offset, lib.int64temp.address, 8)
    modifies lib.mem
    ensures r.Success? && Int64Input(r.value) == Int64Input(value)
  {
    Reversal.WholeTouchable(lib.mem.bytes, buf, offset);
    var o := lib.WriteInt64Opposite(buf, offset, value);
    assert Reversal.Whole(lib.mem.bytes, buf, offset);
    Reversal.WholeTouchable(lib.mem.bytes, buf, offset);
    r := lib.ReadInt64Opposite(buf, offset);
    Int64BytesRoundTrip(Opposite(lib.mem.platform.endianness), Int64Input(value).value);
  }

  /** The unsigned opposite-endian writer and reader agree in the same way. */
  method OppositeUInt64RoundTrip(lib: Library, buf: Region, offset: int, value: Value) returns (r: Result<Value>)
    requires lib.Valid() && UInt64Input(value).Success?
    requires Reversal.Whole(lib.mem.bytes, buf, offset) && Reversal.Apart(buf.address + offset, lib.uint64temp.address, 8)
    modifies lib.mem
    ensures r.Success? && UInt64Input(r.value) == UInt64Input(value)
  {
    Reversal.WholeTouchable(lib.mem.bytes, buf, offset);
    var o := lib.WriteUInt64Opposite(buf, offset, value);
    assert Reversal.Whole(lib.mem.bytes, buf, offset);
    Reversal.WholeTouchable(lib.mem.bytes, buf, offset);
    r := lib.ReadUInt64Opposite(buf, offset);
    UInt64BytesRoundTrip(Opposite(lib.mem.platform.endianness), UInt64Input(value).value);
  }

  /**
   * `allocCString(s)` and then `readCString` of the result: s up to its first NUL, so all
   * of a string without one.
   */
  method CStringRoundTrip(lib: Library, s: seq<byte>) returns (r: Result<Value>)
    requires lib.Valid() && Room(lib, |s| + 1)
    modifies lib.mem
    ensures r == Success(Str(UntilNul(s)))
    ensures (forall i :: 0 <= i < |s| ==> s[i] != 0) ==> r == Success(Str(s))
  {
    var c := lib.AllocCString(Str(s));
    CStringReadsBack(lib.mem, c.value, s);
    r := Binding.ReadCString(lib.mem, c.value, 0);
    UntilNulWhole(s);
  }

  /** A C string stored at the start of a Buffer reads back up to its first NUL. */
  lemma CStringReadsBack(m: Memory, buf: Region, s: seq<byte>)
    requires m.Valid() && 1 <= buf.address
    requires Mapped(m.bytes, buf.address, |s| + 1) && Load(m.bytes, buf.address, |s| + 1) == s + [0]
    ensures Binding.ReadCString(m, buf, 0) == Success(Str(UntilNul(s)))
  {
    assert buf.address + 0 in m.bytes;
    LoadMoved(m.bytes, buf.address, Binding.Ptr(m, buf, 0), |s| + 1);
    CStringStored(m.bytes, Binding.Ptr(m, buf, 0), s);
  }
}
