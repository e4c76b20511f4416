/**
 * The JavaScript layer of lib/ref.js: the `get`/`set` pairs of the builtin types, the
 * type-directed `get`, `set`, `alloc`, `ref` and `deref`, the C-string writers, and the
 * opposite-endian 64-bit accessors. The library object holds what the module creates when
 * it loads: the memory it works in, the `NULL` Buffer and `NULL_POINTER`, and the two
 * scratch Buffers of the opposite-endian functions.
 */
module Ref {
  import opened Wrappers
  import opened Bytes
  import opened Native
  import opened Types
  import opened Heap
  import opened Int64
  import opened NodeBuffer
  import Binding
  import Retention
  import Reversal

  // How get and set find their descriptor.

  /** `buffer.type` (or a type argument) is truthy: a descriptor, or a non-empty name. */
  predicate HasType(t: Option<TypeSpec>) {
    t.Some? && !(t.value.Name? && t.value.s == "")
  }

  /** `buffer.type` after `getType`: kept when it is set, otherwise the default descriptor. */
  function TypeAfterGetType(current: Option<TypeSpec>, length: nat): (t: Option<TypeSpec>)
    ensures HasType(t)
    ensures HasType(current) ==> t == current
    ensures !HasType(current) ==> t.value.Desc? && t.value.t.KindOf() == UnknownKind && t.value.t.Size() == length
  {
    if HasType(current) then current else Some(Desc(DefaultType(length)))
  }

  /**
   * The descriptor `get` and `set` use: the coerced type argument when one is given, else
   * the coerced type of the Buffer, which an untyped Buffer gets by default.
   */
  function Resolved(p: Platform, typeArg: Option<TypeSpec>, current: Option<TypeSpec>, length: nat): (r: Result<TypeDesc>)
    requires p.Valid()
    ensures r.Failure? ==> r.error == InvalidTypeSpecifier
    ensures !HasType(typeArg) && !HasType(current) ==> r == Success(DefaultType(length))
    ensures HasType(typeArg) && typeArg.value.Desc? ==> r == Success(typeArg.value.t)
  {
    if HasType(typeArg) then Coerce(p, typeArg.value) else Coerce(p, TypeAfterGetType(current, length).value)
  }

  /** How many bytes `alloc` reserves for a type: its size at indirection 1, else a pointer. */
  function AllocSize(p: Platform, t: TypeDesc): nat
    requires p.Valid()
  {
    if t.indirection == 1 then t.Size() else p.PointerSize()
  }

  /** How long the view is that `get` returns above indirection 1: the size at 2, else a pointer. */
  function ViewSize(p: Platform, t: TypeDesc): nat
    requires p.Valid()
  {
    if t.indirection == 2 then t.Size() else p.PointerSize()
  }

  /**
   * Dereferencing a reference type gives back the type and a view as long as the Buffer
   * `alloc` would make for it: the reason `deref(ref(buf))` restores buf.
   */
  lemma ViewOfRef(p: Platform, t: TypeDesc)
    requires p.Valid() && t.indirection >= 1
    ensures DerefType(RefType(t)) == t
    ensures ViewSize(p, RefType(t)) == AllocSize(p, t)
  {
  }

  // The get and set functions of the builtin types.

  /** The unsigned reader of width w: what `bool` wraps. */
  function UnsignedGet(m: Memory, buf: Region, offset: int, w: Width): (r: Result<Value>)
    requires m.Valid()
    reads m
    ensures r.Success? ==> r.value.Num? || r.value.Str?
  {
    if w == W64 then Binding.ReadUInt64(m, buf, offset) else ReadChecked(m, buf, offset, w, false)
  }

  /**
   * `type.get(buf, offset)` at indirection 1, by kind: `void` reads null; the integers read
   * in machine order (the 64-bit ones through the addon, as a Number or a decimal String);
   * `Object` reads the stored object; `CString` reads the pointer there and then the C
   * string it points to, or null for NULL; `bool` reads its unsigned integer as a boolean;
   * the default descriptor of an untyped Buffer throws.
   */
  function ScalarGet(m: Memory, buf: Region, offset: int, kind: Kind): (r: Result<Value>)
    requires m.Valid()
    reads m
    ensures kind == VoidKind ==> r == Success(Null)
    ensures kind == UnknownKind ==> r == Failure(UnknownType)
    ensures kind.FloatKind? || kind.DoubleKind? ==> r == Failure(FloatingPoint)
    ensures kind.IntKind? && r.Success? ==> r.value.Num? || r.value.Str?
    ensures kind.BoolKind? && r.Success? ==> r.value.Bool?
    ensures kind == CStringKind && r.Success? ==> r.value.Null? || r.value.Str?
    ensures kind == CStringKind ==> (r == Success(Null) <==> Binding.PointerAt(m, buf, offset) == Success(0))
    ensures kind == CStringKind && r.Success? && r.value.Str? ==>
      Binding.PointerAt(m, buf, offset).Success?
      && Terminated(m.bytes, Binding.PointerAt(m, buf, offset).value, |r.value.s|)
  {
    match kind
    case VoidKind => Success(Null)
    case IntKind(w, signed) =>
      if w == W64 then (if signed then Binding.ReadInt64(m, buf, offset) else Binding.ReadUInt64(m, buf, offset))
      else ReadChecked(m, buf, offset, w, signed)
    case FloatKind => Failure(FloatingPoint)
    case DoubleKind => Failure(FloatingPoint)
    case ObjectKind => Binding.ReadObject(m, buf, offset)
    case CStringKind =>
      var a :- Binding.PointerAt(m, buf, offset);
      if a == 0 then Success(Null)
      else
        (match CStringAt(m.bytes, a)
         case None => Failure(Unmapped)
         case Some(s) => Success(Str(s)))
    case BoolKind(w) =>
      var v :- UnsignedGet(m, buf, offset, w);
      Success(Bool(Truthy(v)))
    case UnknownKind => Failure(UnknownType)
  }

  /** The bytes of s before its first NUL: what a C reader of s sees. */
  function UntilNul(s: seq<byte>): (r: seq<byte>)
    ensures |r| <= |s| && r == s[..|r|]
    ensures forall i :: 0 <= i < |r| ==> r[i] != 0
    ensures |r| < |s| ==> s[|r|] == 0
  {
    if s == [] || s[0] == 0 then [] else [s[0]] + UntilNul(s[1..])
  }

  /** Bytes are their own C string exactly when none of them is NUL. */
  lemma UntilNulWhole(s: seq<byte>)
    ensures UntilNul(s) == s <==> forall i :: 0 <= i < |s| ==> s[i] != 0
  {
    if forall i :: 0 <= i < |s| ==> s[i] != 0 {
      assert |UntilNul(s)| == |s|;
    }
  }

  /** The number `bool`'s setter passes on: a Number as it is, anything else as 1 or 0. */
  function BoolNumber(v: Value): int {
    if v.Num? then v.n else if Truthy(v) then 1 else 0
  }

  /**
   * What `type.get` returns after `type.set(v)` succeeded, by kind: an integer reads back as
   * the number written (an 8-bit one written as a string as its first code), a 64-bit one as
   * the addon returns the integer it parsed from v, a boolean as whether a non-zero pattern
   * was stored, a C string up to its first NUL (null for null and undefined), an object as
   * itself.
   */
  function Readback(kind: Kind, v: Value): Value {
    match kind
    case VoidKind => Null
    case IntKind(w, signed) =>
      if w == W64 then
        if signed then (if Int64Input(v).Success? then Int64Value(Int64Input(v).value) else v)
        else (if UInt64Input(v).Success? then UInt64Value(UInt64Input(v).value) else v)
      else if w == W8 && v.Str? && |v.s| > 0 then Num(v.s[0] as int)
      else v
    case BoolKind(w) => Bool(if w == W64 then ToUnsigned(BoolNumber(v), 8) != 0 else BoolNumber(v) != 0)
    case CStringKind => if v.Str? then Str(UntilNul(v.s)) else Null
    case _ => v
  }

  /** Booleans survive the `bool` wrapper: true is stored as 1 and read back as true. */
  lemma BoolReadback(w: Width, b: bool)
    ensures Readback(BoolKind(w), Bool(b)) == Bool(b)
    ensures Readback(BoolKind(w), Num(if b then 1 else 0)) == Bool(b)
  {
    SignBitEight();
    if w == W64 && b {
      ModSmall(1, TWO_64);
    }
  }

  /** A C string written with its NUL is read back up to its first NUL. */
  lemma CStringStored(bytes: map<int, byte>, a: int, s: seq<byte>)
    requires Mapped(bytes, a, |s| + 1) && Load(bytes, a, |s| + 1) == s + [0]
    ensures CStringAt(bytes, a) == Some(UntilNul(s))
  {
    var u := UntilNul(s);
    var n := |u|;
    var whole := Load(bytes, a, |s| + 1);
    assert bytes[a + n] == whole[n] == 0;
    forall k | a <= k < a + n
      ensures bytes[k] != 0
    {
      assert bytes[k] == whole[k - a] == u[k - a];
    }
    CStringAtTerminated(bytes, a, n);
    var found := Load(bytes, a, n);
    forall i | 0 <= i < n
      ensures found[i] == u[i]
    {
      assert found[i] == bytes[a + i] == whole[i];
    }
    assert found == u;
  }

  /**
   * Whether the slot an integer or `bool` setter of width w writes at buf + offset can be
   * written: the 64-bit setters go through the addon, which needs only the eight bytes at
   * the address to be memory; the narrower ones use Node's checked writers, which also need
   * the slot inside the Buffer.
   */
  predicate IntegerSlot(m: Memory, bytes: map<int, byte>, buf: Region, offset: int, w: Width)
    requires m.platform.Valid()
  {
    if w == W64 then Mapped(bytes, Binding.Ptr(m, buf, offset), 8)
    else InBounds(buf, offset, w.Octets()) && Mapped(bytes, buf.address + offset, w.Octets())
  }

  /**
   * Whether the setter of an integer type of width w takes value: the 64-bit setters take
   * any Number or String; the narrower ones a number their width holds, which for `int8`
   * and `uint8` may be given as a non-empty string whose first byte is that number.
   */
  predicate IntegerAccepted(w: Width, signed: bool, value: Value) {
    if w == W64 then value.Num? || value.Str?
    else if w == W8 && value.Str? then |value.s| > 0 && InRange(w, signed, value.s[0] as int)
    else value.Num? && InRange(w, signed, value.n)
  }

  /**
   * Whether `bool`'s setter of width w takes value: every value becomes a number, which the
   * 64-bit setter always takes and a narrower one only when its width holds it.
   */
  predicate BoolAccepted(w: Width, value: Value) {
    w == W64 || InRange(w, false, BoolNumber(value))
  }

  /**
   * The setter of an integer type at indirection 1: `int8`/`uint8` take a string's first
   * byte, the 16- and 32-bit types use Node's checked writers, and the 64-bit
   * types the addon's `writeInt64`/`writeUInt64`. Only the bytes of the slot change, and
   * the matching getter reads the value back.
   */
  method SetInteger(m: Memory, buf: Region, offset: int, w: Width, signed: bool, value: Value) returns (o: Outcome)
    requires m.Valid()
    modifies m
    ensures m.Valid() && m.handles == old(m.handles) && m.next == old(m.next)
    ensures o.Fail? ==> m.bytes == old(m.bytes)
    ensures o.Pass? ==> OnlyAt(old(m.bytes), m.bytes, Binding.Ptr(m, buf, offset), w.Octets())
    ensures w == W8 && value.Str? && value.s == [] ==>
      o == Fail(if InBounds(buf, offset, 1) then ValueOutOfRange else OutOfBounds)
    ensures w != W64 && !value.Num? && !(w == W8 && value.Str?) ==>
      o == Fail(if InBounds(buf, offset, w.Octets()) then NotANumber else OutOfBounds)
    ensures w == W64 && !(value.Num? || value.Str?) ==> o == Fail(NotAnInteger)
    ensures o.Pass? <==> IntegerSlot(m, old(m.bytes), buf, offset, w) && IntegerAccepted(w, signed, value)
    ensures o.Pass? ==> ScalarGet(m, buf, offset, IntKind(w, signed)) == Success(Readback(IntKind(w, signed), value))
  {
    if w == W64 {
      if signed {
        o := Binding.WriteInt64(m, buf, offset, value);
      } else {
        o := Binding.WriteUInt64(m, buf, offset, value);
      }
      assert w.Octets() == 8;
      return;
    }
    if w == W8 && value.Str? {
      if |value.s| == 0 {
        return if InBounds(buf, offset, 1) then Fail(ValueOutOfRange) else Fail(OutOfBounds);
      }
      o := WriteChecked(m, buf, offset, w, signed, Num(value.s[0] as int));
    } else {
      o := WriteChecked(m, buf, offset, w, signed, value);
    }
    if o.Pass? {
      assert buf.address + offset in m.bytes;
      OnlyAtMoved(old(m.bytes), m.bytes, buf.address + offset, Binding.Ptr(m, buf, offset), w.Octets());
    }
  }

  /**
   * `bool`'s setter (lib/ref.js wraps the unsigned setter of its width): a non-Number is
   * written as 1 when truthy and 0 otherwise. Reading back gives whether the stored
   * pattern is non-zero, so true and false survive the round trip.
   */
  method SetBool(m: Memory, buf: Region, offset: int, w: Width, value: Value) returns (o: Outcome)
    requires m.Valid()
    modifies m
    ensures m.Valid() && m.handles == old(m.handles) && m.next == old(m.next)
    ensures o.Fail? ==> m.bytes == old(m.bytes)
    ensures o.Pass? ==> OnlyAt(old(m.bytes), m.bytes, Binding.Ptr(m, buf, offset), w.Octets())
    ensures !value.Num? && InBounds(buf, offset, w.Octets()) && Mapped(old(m.bytes), buf.address + offset, w.Octets())
            ==> o == Pass
    ensures o.Pass? <==> IntegerSlot(m, old(m.bytes), buf, offset, w) && BoolAccepted(w, value)
    ensures o.Pass? ==> ScalarGet(m, buf, offset, BoolKind(w)) == Success(Readback(BoolKind(w), value))
  {
    var n := Num(BoolNumber(value));
    if !value.Num? {
      assert InRange(w, false, n.n) by {
        assert Pow256(w.Octets()) >= 256;
      }
    }
    if w == W64 {
      if buf.address + offset in m.bytes {
        assert Binding.Ptr(m, buf, offset) == buf.address + offset;
      }
      o := Binding.WriteUInt64(m, buf, offset, n);
      if o.Pass? {
        assert w.Octets() == 8;
        BoolWideReadback(m, buf, offset, value);
      }
    } else {
      o := WriteChecked(m, buf, offset, w, false, n);
      if o.Pass? {
        assert buf.address + offset in m.bytes;
        OnlyAtMoved(old(m.bytes), m.bytes, buf.address + offset, Binding.Ptr(m, buf, offset), w.Octets());
        BoolNarrowReadback(m, buf, offset, w, value);
      }
    }
  }

  /** `bool` of width 64 reads back what the unsigned 64-bit writer stored for v. */
  lemma BoolWideReadback(m: Memory, buf: Region, offset: int, v: Value)
    requires m.Valid() && UInt64Input(Num(BoolNumber(v))).Success?
    requires Binding.StoredUInt64(m, buf, offset) == UInt64Input(Num(BoolNumber(v)))
    ensures ScalarGet(m, buf, offset, BoolKind(W64)) == Success(Readback(BoolKind(W64), v))
  {
    SignBitEight();
    var u := UInt64Input(Num(BoolNumber(v))).value;
    assert Truthy(UInt64Value(u)) <==> u != 0;
  }

  /** `bool` of a narrower width reads back what the checked unsigned writer stored for v. */
  lemma BoolNarrowReadback(m: Memory, buf: Region, offset: int, w: Width, v: Value)
    requires m.Valid() && w != W64
    requires ReadChecked(m, buf, offset, w, false) == Success(Num(BoolNumber(v)))
    ensures ScalarGet(m, buf, offset, BoolKind(w)) == Success(Readback(BoolKind(w), v))
  {
  }

  /**
   * `writeCString(buffer, offset, string)`: refuses a non-string, then writes the string's
   * bytes at offset, cut short at the end of the Buffer, and a NUL after them with the
   * checked byte writer. When the string fills the rest of the Buffer the NUL's index lies
   * outside it, so the call throws after the truncated bytes are written. The Buffer never
   * grows.
   */
  method WriteCString(m: Memory, buf: Region, offset: int, value: Value) returns (o: Outcome)
    requires m.Valid()
    modifies m
    ensures m.Valid() && m.handles == old(m.handles) && m.next == old(m.next)
    ensures m.bytes.Keys == old(m.bytes).Keys
    ensures !value.Str? ==> o == Fail(NotAString) && m.bytes == old(m.bytes)
    ensures value.Str? && !(0 <= offset < buf.length) ==> o == Fail(OutOfBounds) && m.bytes == old(m.bytes)
    ensures o.Pass? <==> value.Str? && 0 <= offset && offset + |value.s| < buf.length
                         && Mapped(old(m.bytes), buf.address + offset, |value.s| + 1)
    ensures o.Pass? ==> m.bytes == Store(old(m.bytes), buf.address + offset, value.s + [0])
    ensures o.Pass? ==> Mapped(m.bytes, buf.address + offset, |value.s| + 1)
                        && Load(m.bytes, buf.address + offset, |value.s| + 1) == value.s + [0]
    ensures value.Str? && 0 <= offset < buf.length <= offset + |value.s|
            && Mapped(old(m.bytes), buf.address + offset, buf.length - offset)
            ==> o == Fail(OutOfBounds) && m.bytes == Store(old(m.bytes), buf.address + offset, value.s[..buf.length - offset])
  {
    if !value.Str? {
      return Fail(NotAString);
    }
    if !(0 <= offset < buf.length) {
      return Fail(OutOfBounds);
    }
    ghost var before := m.bytes;
    if offset + |value.s| < buf.length {
      // The string and its NUL fit.
      if !Mapped(m.bytes, buf.address + offset, |value.s| + 1) {
        return Fail(Unmapped);
      }
      m.bytes := Store(m.bytes, buf.address + offset, value.s + [0]);
      KeysBelow(before, m.bytes, m.next);
      return Pass;
    }
    // The string is cut at the end of the Buffer, and the NUL's index is out of bounds.
    if !Mapped(m.bytes, buf.address + offset, buf.length - offset) {
      return Fail(Unmapped);
    }
    m.bytes := Store(m.bytes, buf.address + offset, value.s[..buf.length - offset]);
    KeysBelow(before, m.bytes, m.next);
    return Fail(OutOfBounds);
  }
}
