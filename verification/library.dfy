/**
 * What lib/ref.js builds when it loads, and the functions of its exports that work through
 * that state: the memory, the `NULL` Buffer of the addon, `NULL_POINTER`, and the two
 * scratch Buffers `int64temp` and `uint64temp` of the opposite-endian accessors. `get`,
 * `set`, `alloc`, `ref`, `deref` and `allocCString` allocate, write, and retag Buffers
 * through it.
 */
module Exports {
  import opened Wrappers
  import opened Bytes
  import opened Native
  import opened Types
  import opened Heap
  import opened Int64
  import opened NodeBuffer
  import opened Ref
  import Binding
  import Retention
  import Reversal

  /** How many bytes of the target a setter of this kind writes. */
  function SlotWidth(m: Memory, kind: Kind): nat
    requires m.platform.Valid()
  {
    match kind
    case IntKind(w, _) => w.Octets()
    case BoolKind(w) => w.Octets()
    case ObjectKind => Binding.ObjectSlot(m)
    case CStringKind => m.platform.PointerSize()
    case _ => 0
  }

  /**
   * Whether the setter of a kind at indirection 1 takes value, leaving aside where it goes:
   * `void` takes anything; the integers and `bool` as their setters say; `Object` while the
   * number of the next handle still fits the slot; `CString` takes null and undefined, and a
   * string while memory has room for its bytes and a NUL; the floating-point kinds and
   * unknown kinds take nothing.
   */
  predicate ValueAccepted(m: Memory, kind: Kind, value: Value, handles: nat, next: nat)
    requires m.platform.Valid()
  {
    match kind
    case VoidKind => true
    case IntKind(w, signed) => IntegerAccepted(w, signed, value)
    case BoolKind(w) => BoolAccepted(w, value)
    case ObjectKind => handles + 1 < Pow256(Binding.ObjectSlot(m))
    case CStringKind =>
      value.Null? || value.Undefined? || (value.Str? && next + |value.s| + 1 < m.platform.AddressLimit())
    case _ => false
  }

  /** Whether the slot the setter of a kind writes at buf + offset can be written in memory bytes. */
  predicate SlotWritable(m: Memory, bytes: map<int, byte>, buf: Region, offset: int, kind: Kind)
    requires m.platform.Valid()
  {
    match kind
    case IntKind(w, _) => IntegerSlot(m, bytes, buf, offset, w)
    case BoolKind(w) => IntegerSlot(m, bytes, buf, offset, w)
    case ObjectKind => Mapped(bytes, Binding.Ptr(m, buf, offset), Binding.ObjectSlot(m))
    case CStringKind => Mapped(bytes, Binding.Ptr(m, buf, offset), m.platform.PointerSize())
    case _ => true
  }

  /**
   * Whether `set` at indirection 1 succeeds from memory bytes with the given number of
   * handles and next free address: the value is taken and its slot can be written, for a
   * string given to `CString` in memory that already holds the new C string.
   */
  predicate ScalarAccepts(m: Memory, bytes: map<int, byte>, handles: nat, next: nat,
                          buf: Region, offset: int, kind: Kind, value: Value)
    requires m.platform.Valid()
  {
    ValueAccepted(m, kind, value, handles, next)
    && SlotWritable(m, if kind == CStringKind && value.Str? then bytes + Zeros(next, |value.s| + 1) else bytes,
                    buf, offset, kind)
  }

  /**
   * Whether `alloc(t, value)` succeeds at indirection 1 from memory with the given number of
   * handles and next free address: there is room for a Buffer of the type's size, and the
   * type's setter takes the value once that Buffer exists.
   */
  predicate AllocAccepts(m: Memory, t: TypeDesc, value: Value, handles: nat, next: nat)
    requires m.platform.Valid()
  {
    next + t.Size() < m.platform.AddressLimit() && ValueAccepted(m, t.KindOf(), value, handles, next + t.Size())
  }

  class Library {
    const mem: Memory
    /** The addon's `NULL`: a Buffer of length 0 at address 0. */
    const NULL: Region
    /** `ref(NULL)`: a pointer-sized Buffer holding the NULL address. */
    const NULL_POINTER: Region
    /** The scratch Buffers the opposite-endian readers and writers reverse through. */
    const int64temp: Region
    const uint64temp: Region

    predicate Valid()
      reads mem
    {
      mem.Valid() && NULL.address == 0 && NULL.length == 0
      && Reversal.Whole(mem.bytes, int64temp, 0) && Reversal.Whole(mem.bytes, uint64temp, 0)
    }

    /**
     * Loading the library: the scratch Buffers are allocated, `NULL` is tagged `void`, and
     * `NULL_POINTER` is `ref(NULL)`. The memory must have room for the three Buffers.
     */
    constructor (mem: Memory)
      requires mem.Valid() && mem.next + 16 + mem.platform.PointerSize() < mem.platform.AddressLimit()
      modifies mem
      ensures Valid() && this.mem == mem
      ensures NULL.typeSpec == Some(Desc(VoidType))
      ensures NULL_POINTER.length == mem.platform.PointerSize()
      ensures NULL_POINTER.typeSpec == Some(Desc(RefType(VoidType)))
      ensures Binding.PointerAt(mem, NULL_POINTER, 0) == Success(0)
      ensures NULL_POINTER.refs == Some([Buf(NULL)])
    {
      var i := mem.Allocate(8);
      assert i.Success?;
      var u := mem.Allocate(8);
      assert u.Success?;
      ghost var temps := mem.bytes;
      var nul := Binding.NullBuffer();
      nul.typeSpec := Some(Desc(VoidType));
      var n := mem.Allocate(mem.platform.PointerSize());
      assert n.Success?;
      var np := n.value;
      np.typeSpec := Some(Desc(RefType(VoidType)));
      assert Binding.Ptr(mem, np, 0) == np.address;
      assert np.Refs() == [];
      var o := Retention.WritePointer(mem, np, 0, Buf(nul));
      assert o.Pass? && [] + [Buf(nul)] == [Buf(nul)];
      this.mem := mem;
      NULL := nul;
      NULL_POINTER := np;
      int64temp := i.value;
      uint64temp := u.value;
      assert temps.Keys <= mem.bytes.Keys;
      MappedGrows(temps, mem.bytes, i.value.address, 8);
      MappedGrows(temps, mem.bytes, u.value.address, 8);
      new;
    }

    /**
     * `allocCString(string)`: `NULL` for null and undefined; otherwise a new Buffer one byte
     * longer than the string's bytes, holding them and a NUL, tagged `char *`.
     */
    method AllocCString(value: Value) returns (r: Result<Region>)
      requires Valid()
      modifies mem
      ensures Valid() && mem.handles == old(mem.handles) && Extends(old(mem.bytes), mem.bytes)
      ensures value.Null? || value.Undefined? ==> r == Success(NULL)
      ensures !(value.Null? || value.Undefined? || value.Str?) ==> r == Failure(NotAString)
      ensures !value.Str? || r.Failure? ==> mem.bytes == old(mem.bytes) && mem.next == old(mem.next)
      ensures value.Str? ==> (r.Failure? <==> old(mem.next) + |value.s| + 1 >= mem.platform.AddressLimit())
      ensures value.Str? && r.Failure? ==> r.error == OutOfMemory
      ensures value.Str? && r.Success? ==> fresh(r.value) && r.value.address == old(mem.next)
      ensures value.Str? && r.Success? ==> r.value.length == |value.s| + 1 && mem.next == old(mem.next) + |value.s| + 1
      ensures value.Str? && r.Success? ==> mem.bytes.Keys == (old(mem.bytes) + Zeros(old(mem.next), |value.s| + 1)).Keys
      ensures value.Str? && r.Success? ==> r.value.typeSpec == Some(Desc(CharPtrType(mem.platform))) && r.value.refs == None
      ensures value.Str? && r.Success? ==> Mapped(mem.bytes, r.value.address, |value.s| + 1)
                                           && Load(mem.bytes, r.value.address, |value.s| + 1) == value.s + [0]
    {
      if value.Null? || value.Undefined? {
        return Success(NULL);
      }
      if !value.Str? {
        return Failure(NotAString);
      }
      var a := mem.Allocate(|value.s| + 1);
      if a.Failure? {
        return Failure(a.error);
      }
      var buf := a.value;
      buf.typeSpec := Some(Desc(CharPtrType(mem.platform)));
      var o := WriteCString(mem, buf, 0, value);
      assert o.Pass?;
      LoadMoved(mem.bytes, buf.address + 0, buf.address, |value.s| + 1);
      StillValid(this, old(mem.bytes));
      return Success(buf);
    }

    /**
     * The `set` function of a builtin type at indirection 1, by kind: `void` ignores the
     * value; the integers and `bool` write through their checked or 64-bit writers;
     * `Object` writes a handle and attaches the object; `CString` allocates a C string
     * (or takes `NULL` for null and undefined) and writes and attaches a pointer to it.
     * Outside the slot the value goes into nothing changes, and the matching `get` reads
     * the value back.
     */
    method ScalarSet(buf: Region, offset: int, kind: Kind, value: Value) returns (o: Outcome)
      requires Valid()
      modifies mem, buf
      ensures Valid() && buf.typeSpec == old(buf.typeSpec) && old(mem.next) <= mem.next
      ensures kind == VoidKind ==> o == Pass && mem.bytes == old(mem.bytes)
      ensures kind == UnknownKind ==> o == Fail(UnknownType) && mem.bytes == old(mem.bytes)
      ensures kind.FloatKind? || kind.DoubleKind? ==> o == Fail(FloatingPoint) && mem.bytes == old(mem.bytes)
      ensures Keeps(old(mem.bytes), mem.bytes, Binding.Ptr(mem, buf, offset), if o.Pass? then SlotWidth(mem, kind) else 0)
      ensures kind != ObjectKind && kind != CStringKind ==> buf.refs == old(buf.refs)
      ensures o.Pass? <==> ScalarAccepts(mem, old(mem.bytes), |old(mem.handles)|, old(mem.next), buf, offset, kind, value)
      ensures o.Pass? && kind != CStringKind ==> ScalarGet(mem, buf, offset, kind) == Success(Readback(kind, value))
      ensures o.Pass? && kind == ObjectKind ==> buf.refs == Some(old(buf.Refs()) + [value])
      ensures o.Pass? && kind == CStringKind && Binding.Ptr(mem, buf, offset) + mem.platform.PointerSize() <= old(mem.next)
              ==> ScalarGet(mem, buf, offset, kind) == Success(Readback(kind, value))
    {
      match kind
      case VoidKind =>
        o := Pass;
      case IntKind(w, signed) =>
        o := SetInteger(mem, buf, offset, w, signed, value);
        if o.Pass? {
          OnlyAtKeeps(old(mem.bytes), mem.bytes, Binding.Ptr(mem, buf, offset), w.Octets());
        }
      case BoolKind(w) =>
        o := SetBool(mem, buf, offset, w, value);
        if o.Pass? {
          OnlyAtKeeps(old(mem.bytes), mem.bytes, Binding.Ptr(mem, buf, offset), w.Octets());
        }
      case FloatKind =>
        o := Fail(FloatingPoint);
      case DoubleKind =>
        o := Fail(FloatingPoint);
      case ObjectKind =>
        o := Retention.WriteObject(mem, buf, offset, value);
      case CStringKind =>
        o := SetCString(buf, offset, value);
      case UnknownKind =>
        o := Fail(UnknownType);
      StillValid(this, old(mem.bytes));
    }

    /**
     * `CString`'s setter: `allocCString(val)`, then `buf.writePointer(_buf, offset)`, which
     * stores the C string's address and attaches its Buffer to buf.
     */
    method SetCString(buf: Region, offset: int, value: Value) returns (o: Outcome)
      requires Valid()
      modifies mem, buf
      ensures Valid() && buf.typeSpec == old(buf.typeSpec) && old(mem.next) <= mem.next
      ensures Keeps(old(mem.bytes), mem.bytes, Binding.Ptr(mem, buf, offset), if o.Pass? then mem.platform.PointerSize() else 0)
      ensures !(value.Null? || value.Undefined? || value.Str?) ==> o == Fail(NotAString) && mem.bytes == old(mem.bytes)
      ensures o.Fail? ==> buf.refs == old(buf.refs)
      ensures o.Pass? <==> ScalarAccepts(mem, old(mem.bytes), |old(mem.handles)|, old(mem.next), buf, offset, CStringKind, value)
      ensures o.Pass? ==> buf.refs.Some? && |buf.refs.value| == |old(buf.Refs())| + 1
                          && buf.refs.value[..|old(buf.Refs())|] == old(buf.Refs())
      ensures o.Pass? ==> var held := buf.refs.value[|old(buf.Refs())|];
                          held.Buf? && Binding.PointerAt(mem, buf, offset) == Success(held.r.address)
      ensures o.Pass? && Binding.Ptr(mem, buf, offset) + mem.platform.PointerSize() <= old(mem.next)
              ==> ScalarGet(mem, buf, offset, CStringKind) == Success(Readback(CStringKind, value))
    {
      var c := AllocCString(value);
      if c.Failure? {
        assert !ValueAccepted(mem, CStringKind, value, |old(mem.handles)|, old(mem.next));
        return Fail(c.error);
      }
      ghost var mid := mem.bytes;
      CStringAccepts(mem, old(mem.bytes), mid, |old(mem.handles)|, old(mem.next), buf, offset, value);
      o := Retention.WritePointer(mem, buf, offset, Buf(c.value));
      if o.Pass? {
        assert Binding.StoredAddress(mem, Buf(c.value)) == c.value.address;
        if value.Str? && Binding.Ptr(mem, buf, offset) + mem.platform.PointerSize() <= old(mem.next) {
          LoadApart(mid, Binding.Ptr(mem, buf, offset),
            Encode(mem.platform.endianness, Binding.StoredAddress(mem, Buf(c.value)), mem.platform.PointerSize()),
            c.value.address, |value.s| + 1);
          CStringReadback(mem, buf, offset, c.value.address, value.s);
        } else if !value.Str? {
          NullReadback(mem, buf, offset, value);
        }
      }
      assert mid.Keys == mem.bytes.Keys;
      ExtendsKeys(old(mem.bytes), mid);
      StillValid(this, old(mem.bytes));
    }

    /**
     * `get` once its descriptor t is known: below indirection 1 it throws; at 1 it calls the
     * type's getter; above 1 it reads the pointer there into a view as long as the type
     * (at indirection 2) or a pointer, and tags the view with `derefType(t)`.
     */
    method GetAs(buf: Region, offset: int, t: TypeDesc) returns (r: Result<Value>)
      requires Valid()
      ensures t.indirection < 1 ==> r == Failure(InvalidIndirectionLevel)
      ensures t.indirection == 1 ==> r == ScalarGet(mem, buf, offset, t.KindOf())
      ensures t.indirection > 1 ==> (r.Success? <==> Binding.PointerAt(mem, buf, offset).Success?)
      ensures t.indirection > 1 && r.Failure? ==> r.error == Binding.PointerAt(mem, buf, offset).error
      ensures t.indirection > 1 && r.Success? ==>
        r.value.Buf? && fresh(r.value.r) && r.value.r.address == Binding.PointerAt(mem, buf, offset).value
      ensures t.indirection > 1 && r.Success? ==>
        r.value.Buf? && r.value.r.length == ToUint32(ViewSize(mem.platform, t))
        && r.value.r.typeSpec == Some(Desc(DerefType(t))) && r.value.r.refs == None
    {
      if t.indirection < 1 {
        return Failure(InvalidIndirectionLevel);
      }
      if t.indirection == 1 {
        return ScalarGet(mem, buf, offset, t.KindOf());
      }
      var view :- Binding.ReadPointer(mem, buf, offset, ViewSize(mem.platform, t));
      view.typeSpec := Some(Desc(DerefType(t)));
      return Success(Buf(view));
    }

    /**
     * `getType(buffer)`: a Buffer without a type is first given the default descriptor, which
     * has the Buffer's length as its size and whose accessors throw; the type is then coerced.
     */
    method GetType(buf: Region) returns (r: Result<TypeDesc>)
      requires Valid()
      modifies buf
      ensures buf.refs == old(buf.refs) && buf.typeSpec == TypeAfterGetType(old(buf.typeSpec), buf.length)
      ensures HasType(old(buf.typeSpec)) ==> r == Coerce(mem.platform, old(buf.typeSpec).value)
      ensures !HasType(old(buf.typeSpec)) ==> r == Success(DefaultType(buf.length))
    {
      if !HasType(buf.typeSpec) {
        buf.typeSpec := Some(Desc(DefaultType(buf.length)));
      }
      r := Coerce(mem.platform, buf.typeSpec.value);
    }

    /**
     * `get(buffer, offset, type)`: the descriptor is the coerced type argument when one is
     * given, otherwise `getType(buffer)`, which gives an untyped Buffer its default type.
     */
    method Get(buf: Region, offset: int, typeArg: Option<TypeSpec>) returns (r: Result<Value>)
      requires Valid()
      modifies buf
      ensures buf.refs == old(buf.refs)
      ensures HasType(typeArg) ==> buf.typeSpec == old(buf.typeSpec)
      ensures !HasType(typeArg) ==> buf.typeSpec == TypeAfterGetType(old(buf.typeSpec), buf.length)
      ensures Resolved(mem.platform, typeArg, old(buf.typeSpec), buf.length).Failure?
              ==> r == Failure(InvalidTypeSpecifier)
      ensures var t := Resolved(mem.platform, typeArg, old(buf.typeSpec), buf.length);
              t.Success? && t.value.indirection < 1 ==> r == Failure(InvalidIndirectionLevel)
      ensures var t := Resolved(mem.platform, typeArg, old(buf.typeSpec), buf.length);
              t.Success? && t.value.indirection == 1 ==> r == ScalarGet(mem, buf, offset, t.value.KindOf())
      ensures var t := Resolved(mem.platform, typeArg, old(buf.typeSpec), buf.length);
              t.Success? && t.value.indirection > 1 ==>
                (r.Success? <==> Binding.PointerAt(mem, buf, offset).Success?)
                && (r.Failure? ==> r.error == Binding.PointerAt(mem, buf, offset).error)
                && (r.Success? ==> r.value.Buf? && fresh(r.value.r)
                                   && r.value.r.address == Binding.PointerAt(mem, buf, offset).value
                                   && r.value.r.length == ToUint32(ViewSize(mem.platform, t.value))
                                   && r.value.r.typeSpec == Some(Desc(DerefType(t.value))))
    {
      var t;
      if HasType(typeArg) {
        t := Coerce(mem.platform, typeArg.value);
      } else {
        t := GetType(buf);
      }
      if t.Failure? {
        return Failure(t.error);
      }
      r := GetAs(buf, offset, t.value);
    }

    /**
     * `set` once its descriptor t is known: below indirection 1 it throws; at 1 it calls the
     * type's setter; above 1 it writes (and attaches) a pointer to the value.
     */
    method SetAs(buf: Region, offset: int, t: TypeDesc, value: Value) returns (o: Outcome)
      requires Valid()
      modifies mem, buf
      ensures Valid() && buf.typeSpec == old(buf.typeSpec) && old(mem.next) <= mem.next
      ensures t.indirection != 1 ==> mem.next == old(mem.next)
      ensures t.indirection < 1 ==> o == Fail(InvalidIndirectionLevel)
      ensures t.indirection < 1 || (t.indirection > 1 && o.Fail?) ==> mem.bytes == old(mem.bytes) && buf.refs == old(buf.refs)
      ensures t.indirection == 1 ==>
        Keeps(old(mem.bytes), mem.bytes, Binding.Ptr(mem, buf, offset), if o.Pass? then SlotWidth(mem, t.KindOf()) else 0)
      ensures t.indirection == 1 ==>
        (o.Pass? <==> ScalarAccepts(mem, old(mem.bytes), |old(mem.handles)|, old(mem.next), buf, offset, t.KindOf(), value))
      ensures t.indirection == 1 && o.Pass? && t.KindOf() != CStringKind
              ==> ScalarGet(mem, buf, offset, t.KindOf()) == Success(Readback(t.KindOf(), value))
      ensures t.indirection == 1 && o.Pass? && t.KindOf() == CStringKind
              && Binding.Ptr(mem, buf, offset) + mem.platform.PointerSize() <= old(mem.next)
              ==> ScalarGet(mem, buf, offset, CStringKind) == Success(Readback(CStringKind, value))
      ensures t.indirection > 1 ==> (o.Pass? <==> (value.Null? || value.Buf?)
                                                  && Mapped(old(mem.bytes), Binding.Ptr(mem, buf, offset), mem.platform.PointerSize()))
      ensures t.indirection > 1 && !(value.Null? || value.Buf?) ==> o == Fail(NotABuffer)
      ensures t.indirection > 1 && o.Pass? ==>
        OnlyAt(old(mem.bytes), mem.bytes, Binding.Ptr(mem, buf, offset), mem.platform.PointerSize())
        && Binding.PointerAt(mem, buf, offset) == Success(Binding.StoredAddress(mem, value))
        && buf.refs == Some(old(buf.Refs()) + [value])
    {
      if t.indirection < 1 {
        return Fail(InvalidIndirectionLevel);
      }
      if t.indirection == 1 {
        o := ScalarSet(buf, offset, t.KindOf(), value);
      } else {
        o := Retention.WritePointer(mem, buf, offset, value);
        StillValid(this, old(mem.bytes));
      }
    }

    /**
     * `set(buffer, offset, value, type)`: the descriptor is found as `get` finds it, then
     * the value is written as that descriptor says.
     */
    method Set(buf: Region, offset: int, value: Value, typeArg: Option<TypeSpec>) returns (o: Outcome)
      requires Valid()
      modifies mem, buf
      ensures Valid()
      ensures HasType(typeArg) ==> buf.typeSpec == old(buf.typeSpec)
      ensures !HasType(typeArg) ==> buf.typeSpec == TypeAfterGetType(old(buf.typeSpec), buf.length)
      ensures Resolved(mem.platform, typeArg, old(buf.typeSpec), buf.length).Failure?
              ==> o == Fail(InvalidTypeSpecifier) && mem.bytes == old(mem.bytes)
      ensures var t := Resolved(mem.platform, typeArg, old(buf.typeSpec), buf.length);
              t.Success? && t.value.indirection < 1 ==> o == Fail(InvalidIndirectionLevel) && mem.bytes == old(mem.bytes)
      ensures var t := Resolved(mem.platform, typeArg, old(buf.typeSpec), buf.length);
              t.Success? && t.value.indirection == 1 ==>
                (o.Pass? <==> ScalarAccepts(mem, old(mem.bytes), |old(mem.handles)|, old(mem.next), buf, offset,
                                            t.value.KindOf(), value))
      ensures var t := Resolved(mem.platform, typeArg, old(buf.typeSpec), buf.length);
              t.Success? && t.value.indirection == 1 && o.Pass? && t.value.KindOf() != CStringKind
              ==> ScalarGet(mem, buf, offset, t.value.KindOf()) == Success(Readback(t.value.KindOf(), value))
      ensures var t := Resolved(mem.platform, typeArg, old(buf.typeSpec), buf.length);
              t.Success? && t.value.indirection > 1 ==>
                (o.Pass? <==> (value.Null? || value.Buf?)
                              && Mapped(old(mem.bytes), Binding.Ptr(mem, buf, offset), mem.platform.PointerSize()))
                && (o.Pass? ==> Binding.PointerAt(mem, buf, offset) == Success(Binding.StoredAddress(mem, value))
                                && buf.refs == Some(old(buf.Refs()) + [value]))
    {
      var t;
      if HasType(typeArg) {
        t := Coerce(mem.platform, typeArg.value);
      } else {
        t := GetType(buf);
      }
      if t.Failure? {
        return Fail(t.error);
      }
      o := SetAs(buf, offset, t.value, value);
    }

    /**
     * `alloc(type, value)`: a new Buffer as large as the type at indirection 1 and a pointer
     * otherwise, tagged with the coerced type, into which a given value is `set`. Memory
     * that existed before is left as it was.
     */
    method Alloc(spec: TypeSpec, value: Option<Value>) returns (r: Result<Region>)
      requires Valid()
      modifies mem
      ensures Valid() && Extends(old(mem.bytes), mem.bytes)
      ensures Coerce(mem.platform, spec).Failure? ==> r == Failure(InvalidTypeSpecifier) && mem.bytes == old(mem.bytes)
      ensures var t := Coerce(mem.platform, spec);
              t.Success? && value.None? ==> (r.Success? <==> old(mem.next) + AllocSize(mem.platform, t.value) < mem.platform.AddressLimit())
      ensures var t := Coerce(mem.platform, spec);
              r.Success? ==> t.Success? && fresh(r.value) && r.value.address == old(mem.next)
                             && r.value.length == AllocSize(mem.platform, t.value) && r.value.typeSpec == Some(Desc(t.value))
      ensures r.Success? ==> old(mem.next) + r.value.length <= mem.next
      ensures var t := Coerce(mem.platform, spec);
              r.Success? && (value.None? || t.value.indirection > 1) ==> mem.next == old(mem.next) + r.value.length
      ensures value.None? && r.Success? ==> r.value.refs == None
                                            && mem.bytes == old(mem.bytes) + Zeros(old(mem.next), r.value.length)
      ensures var t := Coerce(mem.platform, spec);
              value.Some? && t.Success? && t.value.indirection == 1 && SlotWidth(mem, t.value.KindOf()) <= t.value.Size()
              ==> (r.Success? <==> AllocAccepts(mem, t.value, value.value, |old(mem.handles)|, old(mem.next)))
      ensures var t := Coerce(mem.platform, spec);
              value.Some? && r.Success? && t.value.indirection == 1
              && (t.value.KindOf() == CStringKind ==> mem.platform.PointerSize() <= t.value.Size())
              ==> ScalarGet(mem, r.value, 0, t.value.KindOf()) == Success(Readback(t.value.KindOf(), value.value))
      ensures var t := Coerce(mem.platform, spec);
              value.Some? && t.Success? && t.value.indirection > 1 && !(value.value.Null? || value.value.Buf?)
              && old(mem.next) + mem.platform.PointerSize() < mem.platform.AddressLimit()
              ==> r == Failure(NotABuffer)
      ensures var t := Coerce(mem.platform, spec);
              value.Some? && t.Success? && t.value.indirection > 1 && (value.value.Null? || value.value.Buf?)
              ==> (r.Success? <==> old(mem.next) + mem.platform.PointerSize() < mem.platform.AddressLimit())
      ensures var t := Coerce(mem.platform, spec);
              value.Some? && r.Success? && t.value.indirection > 1 ==>
                Binding.PointerAt(mem, r.value, 0) == Success(Binding.StoredAddress(mem, value.value))
                && r.value.refs == Some([value.value])
    {
      var t :- Coerce(mem.platform, spec);
      ghost var fits := value.Some? && t.indirection == 1 && SlotWidth(mem, t.KindOf()) <= t.Size();
      ghost var accepted := value.Some? && AllocAccepts(mem, t, value.value, |mem.handles|, mem.next);
      var a := mem.Allocate(AllocSize(mem.platform, t));
      if a.Failure? {
        assert fits ==> !accepted;
        return Failure(a.error);
      }
      var buf := a.value;
      buf.typeSpec := Some(Desc(t));
      StillValid(this, old(mem.bytes));
      if value.Some? {
        ghost var before := mem.bytes;
        assert Binding.Ptr(mem, buf, 0) == buf.address;
        assert buf.Refs() == [] && [] + [value.value] == [value.value];
        if fits {
          FreshAccepts(mem, mem.bytes, |mem.handles|, mem.next, buf, t.KindOf(), value.value);
        }
        var o := SetAs(buf, 0, t, value.value);
        assert fits ==> (o.Pass? <==> accepted);
        if o.Fail? {
          return Failure(o.error);
        }
        if t.indirection == 1 {
          ExtendsThenKeeps(old(mem.bytes), before, mem.bytes, buf.address, SlotWidth(mem, t.KindOf()));
        } else {
          OnlyAtKeeps(before, mem.bytes, buf.address, mem.platform.PointerSize());
          ExtendsThenKeeps(old(mem.bytes), before, mem.bytes, buf.address, mem.platform.PointerSize());
        }
      }
      return Success(buf);
    }

    /**
     * `ref(buffer)`: a new pointer-sized Buffer, typed one level above the Buffer's own type,
     * that holds the Buffer's address and keeps the Buffer alive.
     */
    method RefOf(buf: Region) returns (r: Result<Region>)
      requires Valid()
      modifies mem, buf
      ensures Valid() && Extends(old(mem.bytes), mem.bytes) && buf.refs == old(buf.refs)
      ensures buf.typeSpec == TypeAfterGetType(old(buf.typeSpec), buf.length)
      ensures var t := Resolved(mem.platform, None, old(buf.typeSpec), buf.length);
              t.Failure? ==> r == Failure(InvalidTypeSpecifier) && mem.bytes == old(mem.bytes)
      ensures var t := Resolved(mem.platform, None, old(buf.typeSpec), buf.length);
              t.Success? && t.value.indirection >= 1
              ==> (r.Success? <==> old(mem.next) + mem.platform.PointerSize() < mem.platform.AddressLimit())
      ensures var t := Resolved(mem.platform, None, old(buf.typeSpec), buf.length);
              r.Success? ==> t.Success? && fresh(r.value) && r.value.address == old(mem.next)
                             && r.value.typeSpec == Some(Desc(RefType(t.value)))
      ensures var t := Resolved(mem.platform, None, old(buf.typeSpec), buf.length);
              r.Success? && t.value.indirection >= 1 ==>
                r.value.length == mem.platform.PointerSize() && mem.next == old(mem.next) + r.value.length
                && Binding.PointerAt(mem, r.value, 0) == Success(Binding.StoredAddress(mem, Buf(buf)))
                && r.value.refs == Some([Buf(buf)])
    {
      var t :- GetType(buf);
      r := Alloc(Desc(RefType(t)), Some(Buf(buf)));
    }

    /** `deref(buffer)`: `get(buffer, 0)` with the Buffer's own type. */
    method Deref(buf: Region) returns (r: Result<Value>)
      requires Valid()
      modifies buf
      ensures buf.refs == old(buf.refs) && buf.typeSpec == TypeAfterGetType(old(buf.typeSpec), buf.length)
      ensures var t := Resolved(mem.platform, None, old(buf.typeSpec), buf.length);
              t.Failure? ==> r == Failure(InvalidTypeSpecifier)
      ensures var t := Resolved(mem.platform, None, old(buf.typeSpec), buf.length);
              t.Success? && t.value.indirection < 1 ==> r == Failure(InvalidIndirectionLevel)
      ensures var t := Resolved(mem.platform, None, old(buf.typeSpec), buf.length);
              t.Success? && t.value.indirection == 1 ==> r == ScalarGet(mem, buf, 0, t.value.KindOf())
      ensures var t := Resolved(mem.platform, None, old(buf.typeSpec), buf.length);
              t.Success? && t.value.indirection > 1 ==>
                (r.Success? <==> Binding.PointerAt(mem, buf, 0).Success?)
                && (r.Success? ==> r.value.Buf? && fresh(r.value.r)
                                   && r.value.r.address == Binding.PointerAt(mem, buf, 0).value
                                   && r.value.r.length == ToUint32(ViewSize(mem.platform, t.value))
                                   && r.value.r.typeSpec == Some(Desc(DerefType(t.value))))
    {
      r := Get(buf, 0, None);
    }

    // The opposite-endian 64-bit accessors. Each reverses the eight bytes through one of
    // the two scratch Buffers; the facts about their contents assume that the caller's
    // eight bytes do not overlap the scratch Buffer.

    /**
     * The readers' loop: `temp[i] = buffer[offset + 8 - i - 1]` for i from 0 to 7. A byte
     * outside the Buffer reads as 0; the loop fails only on a byte inside it that is not memory.
     */
    method Gather(temp: Region, buf: Region, offset: int) returns (o: Outcome)
      requires Valid() && (temp == int64temp || temp == uint64temp)
      modifies mem
      ensures Valid() && mem.handles == old(mem.handles) && mem.next == old(mem.next)
      ensures mem.bytes.Keys == old(mem.bytes).Keys
      ensures o.Fail? <==> !Reversal.Touchable(old(mem.bytes), buf, offset)
      ensures o.Fail? ==> o.error == Unmapped
      ensures o.Pass? && Reversal.Apart(buf.address + offset, temp.address, 8) ==>
                OnlyAt(old(mem.bytes), mem.bytes, temp.address, 8)
                && Mapped(mem.bytes, temp.address, 8)
                && Load(mem.bytes, temp.address, 8) == Reversal.Gathered(old(mem.bytes), buf, offset)
    {
      Reversal.WholeTouchable(mem.bytes, temp, 0);
      o := Reversal.CopyReversed(mem, buf, offset, temp, 0);
      if o.Pass? && Reversal.Apart(buf.address + offset, temp.address, 8) {
        assert Reversal.Apart(buf.address + offset, temp.address + 0, Reversal.WIDTH);
        Reversal.GatheredInto(old(mem.bytes), mem.bytes, buf, offset, temp);
      }
      TemporariesKept(old(mem.bytes));
    }

    /**
     * The writers' loop: `buffer[offset + i] = temp[8 - i - 1]` for i from 0 to 7. A byte
     * outside the Buffer is not written; the loop fails only on a byte inside it that is not
     * memory. Over eight bytes of memory it leaves the scratch bytes reversed.
     */
    method Scatter(temp: Region, buf: Region, offset: int) returns (o: Outcome)
      requires Valid() && (temp == int64temp || temp == uint64temp)
      modifies mem
      ensures Valid() && mem.handles == old(mem.handles) && mem.next == old(mem.next)
      ensures mem.bytes.Keys == old(mem.bytes).Keys
      ensures o.Fail? <==> !Reversal.Touchable(old(mem.bytes), buf, offset)
      ensures o.Fail? ==> o.error == Unmapped
      ensures o.Pass? && Reversal.Apart(buf.address + offset, temp.address, 8) ==>
                OnlyAt(old(mem.bytes), mem.bytes, buf.address + offset, 8)
      ensures o.Pass? && Reversal.Apart(buf.address + offset, temp.address, 8) && Reversal.Whole(old(mem.bytes), buf, offset) ==>
                Mapped(mem.bytes, buf.address + offset, 8)
                && Load(mem.bytes, buf.address + offset, 8) == Reverse(Load(old(mem.bytes), temp.address, 8))
    {
      Reversal.WholeTouchable(mem.bytes, temp, 0);
      o := Reversal.CopyReversed(mem, temp, 0, buf, offset);
      if o.Pass? && Reversal.Apart(buf.address + offset, temp.address, 8) {
        assert Reversal.Apart(temp.address + 0, buf.address + offset, Reversal.WIDTH);
        Reversal.ScatteredFrom(old(mem.bytes), mem.bytes, temp, buf, offset);
      }
      TemporariesKept(old(mem.bytes));
    }

    /** Memory whose addresses are unchanged still holds both scratch Buffers. */
    lemma TemporariesKept(before: map<int, byte>)
      requires mem.Valid() && NULL.address == 0 && NULL.length == 0
      requires Reversal.Whole(before, int64temp, 0) && Reversal.Whole(before, uint64temp, 0)
      requires mem.bytes.Keys == before.Keys
      ensures Valid()
    {
      Reversal.TouchableKeys(before, mem.bytes, int64temp, 0);
      Reversal.TouchableKeys(before, mem.bytes, uint64temp, 0);
    }

    /**
     * `readInt64` of the opposite byte order: the eight bytes reversed into the scratch
     * Buffer, read there in machine order. Over eight bytes of memory that is the int64
     * they denote in the opposite order.
     */
    method ReadInt64Opposite(buf: Region, offset: int) returns (r: Result<Value>)
      requires Valid()
      modifies mem
      ensures Valid() && mem.handles == old(mem.handles) && mem.next == old(mem.next)
      ensures r.Failure? <==> !Reversal.Touchable(old(mem.bytes), buf, offset)
      ensures r.Failure? ==> r.error == Unmapped
      ensures r.Success? && Reversal.Apart(buf.address + offset, int64temp.address, 8) ==>
                OnlyAt(old(mem.bytes), mem.bytes, int64temp.address, 8)
                && Int64Input(r.value)
                   == Success(ToSigned(Decode(mem.platform.endianness, Reversal.Gathered(old(mem.bytes), buf, offset)), 8))
      ensures r.Success? && Reversal.Apart(buf.address + offset, int64temp.address, 8)
              && Reversal.Whole(old(mem.bytes), buf, offset) ==>
                Int64Input(r.value)
                == Success(ToSigned(Decode(Opposite(mem.platform.endianness), Load(old(mem.bytes), buf.address + offset, 8)), 8))
    {
      var o := Gather(int64temp, buf, offset);
      if o.Fail? {
        return Failure(o.error);
      }
      assert int64temp.address + 0 in mem.bytes;
      assert Binding.Ptr(mem, int64temp, 0) == int64temp.address;
      r := Binding.ReadInt64(mem, int64temp, 0);
      if Reversal.Apart(buf.address + offset, int64temp.address, 8) && Reversal.Whole(old(mem.bytes), buf, offset) {
        Reversal.GatheredWhole(old(mem.bytes), buf, offset);
        DecodeReversed(mem.platform.endianness, Load(old(mem.bytes), buf.address + offset, 8));
      }
    }

    /** `readUInt64` of the opposite byte order, through the other scratch Buffer. */
    method ReadUInt64Opposite(buf: Region, offset: int) returns (r: Result<Value>)
      requires Valid()
      modifies mem
      ensures Valid() && mem.handles == old(mem.handles) && mem.next == old(mem.next)
      ensures r.Failure? <==> !Reversal.Touchable(old(mem.bytes), buf, offset)
      ensures r.Failure? ==> r.error == Unmapped
      ensures r.Success? && Reversal.Apart(buf.address + offset, uint64temp.address, 8) ==>
                OnlyAt(old(mem.bytes), mem.bytes, uint64temp.address, 8)
                && UInt64Input(r.value)
                   == Success(Decode(mem.platform.endianness, Reversal.Gathered(old(mem.bytes), buf, offset)))
      ensures r.Success? && Reversal.Apart(buf.address + offset, uint64temp.address, 8)
              && Reversal.Whole(old(mem.bytes), buf, offset) ==>
                UInt64Input(r.value) == Success(Decode(Opposite(mem.platform.endianness), Load(old(mem.bytes), buf.address + offset, 8)))
    {
      var o := Gather(uint64temp, buf, offset);
      if o.Fail? {
        return Failure(o.error);
      }
      assert uint64temp.address + 0 in mem.bytes;
      assert Binding.Ptr(mem, uint64temp, 0) == uint64temp.address;
      r := Binding.ReadUInt64(mem, uint64temp, 0);
      if Reversal.Apart(buf.address + offset, uint64temp.address, 8) && Reversal.Whole(old(mem.bytes), buf, offset) {
        Reversal.GatheredWhole(old(mem.bytes), buf, offset);
        DecodeReversed(mem.platform.endianness, Load(old(mem.bytes), buf.address + offset, 8));
      }
    }

    /**
     * `writeInt64` of the opposite byte order: the value written into the scratch Buffer in
     * machine order, then its bytes reversed into the caller's Buffer. An input that is not
     * an integer is refused before anything is written.
     */
    method WriteInt64Opposite(buf: Region, offset: int, value: Value) returns (o: Outcome)
      requires Valid()
      modifies mem
      ensures Valid() && mem.handles == old(mem.handles) && mem.next == old(mem.next)
      ensures Int64Input(value).Failure? ==> o == Fail(NotAnInteger) && mem.bytes == old(mem.bytes)
      ensures Int64Input(value).Success? ==> (o.Fail? <==> !Reversal.Touchable(old(mem.bytes), buf, offset))
      ensures Int64Input(value).Success? && o.Fail? ==> o.error == Unmapped
      ensures o.Pass? && Reversal.Apart(buf.address + offset, int64temp.address, 8) ==>
                OnlyAtEither(old(mem.bytes), mem.bytes, int64temp.address, buf.address + offset, 8)
      ensures o.Pass? && Reversal.Apart(buf.address + offset, int64temp.address, 8) && Reversal.Whole(old(mem.bytes), buf, offset) ==>
                Mapped(mem.bytes, buf.address + offset, 8)
                && Load(mem.bytes, buf.address + offset, 8)
                   == Encode(Opposite(mem.platform.endianness), ToUnsigned(Int64Input(value).value, 8), 8)
    {
      assert int64temp.address + 0 in mem.bytes;
      assert Binding.Ptr(mem, int64temp, 0) == int64temp.address;
      o := Binding.WriteInt64(mem, int64temp, 0, value);
      if o.Fail? {
        return;
      }
      ghost var mid := mem.bytes;
      assert mid.Keys == old(mem.bytes).Keys;
      Reversal.TouchableKeys(old(mem.bytes), mid, buf, offset);
      TemporariesKept(old(mem.bytes));
      o := Scatter(int64temp, buf, offset);
      if o.Pass? && Reversal.Apart(buf.address + offset, int64temp.address, 8) {
        OnlyAtThen(old(mem.bytes), mid, mem.bytes, int64temp.address, buf.address + offset, 8);
        if Reversal.Whole(old(mem.bytes), buf, offset) {
          EncodeReversed(mem.platform.endianness, ToUnsigned(Int64Input(value).value, 8), 8);
        }
      }
    }

    /** `writeUInt64` of the opposite byte order, through the other scratch Buffer. */
    method WriteUInt64Opposite(buf: Region, offset: int, value: Value) returns (o: Outcome)
      requires Valid()
      modifies mem
      ensures Valid() && mem.handles == old(mem.handles) && mem.next == old(mem.next)
      ensures UInt64Input(value).Failure? ==> o == Fail(NotAnInteger) && mem.bytes == old(mem.bytes)
      ensures UInt64Input(value).Success? ==> (o.Fail? <==> !Reversal.Touchable(old(mem.bytes), buf, offset))
      ensures UInt64Input(value).Success? && o.Fail? ==> o.error == Unmapped
      ensures o.Pass? && Reversal.Apart(buf.address + offset, uint64temp.address, 8) ==>
                OnlyAtEither(old(mem.bytes), mem.bytes, uint64temp.address, buf.address + offset, 8)
      ensures o.Pass? && Reversal.Apart(buf.address + offset, uint64temp.address, 8) && Reversal.Whole(old(mem.bytes), buf, offset) ==>
                Mapped(mem.bytes, buf.address + offset, 8)
                && Load(mem.bytes, buf.address + offset, 8) == Encode(Opposite(mem.platform.endianness), UInt64Input(value).value, 8)
    {
      assert uint64temp.address + 0 in mem.bytes;
      assert Binding.Ptr(mem, uint64temp, 0) == uint64temp.address;
      o := Binding.WriteUInt64(mem, uint64temp, 0, value);
      if o.Fail? {
        return;
      }
      ghost var mid := mem.bytes;
      assert mid.Keys == old(mem.bytes).Keys;
      Reversal.TouchableKeys(old(mem.bytes), mid, buf, offset);
      TemporariesKept(old(mem.bytes));
      o := Scatter(uint64temp, buf, offset);
      if o.Pass? && Reversal.Apart(buf.address + offset, uint64temp.address, 8) {
        OnlyAtThen(old(mem.bytes), mid, mem.bytes, uint64temp.address, buf.address + offset, 8);
        if Reversal.Whole(old(mem.bytes), buf, offset) {
          EncodeReversed(mem.platform.endianness, UInt64Input(value).value, 8);
        }
      }
    }
  }

  /** A pointer to a Buffer holding s and a NUL makes `CString`'s getter read s up to its first NUL. */
  lemma CStringReadback(m: Memory, buf: Region, offset: int, a: nat, s: seq<byte>)
    requires m.Valid() && Binding.PointerAt(m, buf, offset) == Success(a) && a != 0
    requires Mapped(m.bytes, a, |s| + 1) && Load(m.bytes, a, |s| + 1) == s + [0]
    ensures ScalarGet(m, buf, offset, CStringKind) == Success(Readback(CStringKind, Str(s)))
  {
    CStringStored(m.bytes, a, s);
  }

  /** A NULL pointer makes `CString`'s getter read null. */
  lemma NullReadback(m: Memory, buf: Region, offset: int, v: Value)
    requires m.Valid() && Binding.PointerAt(m, buf, offset) == Success(0) && !v.Str?
    ensures ScalarGet(m, buf, offset, CStringKind) == Success(Readback(CStringKind, v))
  {
  }

  /**
   * Once `CString`'s setter has its C string (in memory mid), whether `set` succeeds comes
   * down to whether the pointer slot is memory there.
   */
  lemma CStringAccepts(m: Memory, before: map<int, byte>, mid: map<int, byte>, handles: nat, next: nat,
                       buf: Region, offset: int, value: Value)
    requires m.platform.Valid()
    requires value.Null? || value.Undefined? || (value.Str? && next + |value.s| + 1 < m.platform.AddressLimit())
    requires value.Str? ==> mid.Keys == (before + Zeros(next, |value.s| + 1)).Keys
    requires !value.Str? ==> mid == before
    ensures ScalarAccepts(m, before, handles, next, buf, offset, CStringKind, value)
            <==> Mapped(mid, Binding.Ptr(m, buf, offset), m.platform.PointerSize())
  {
    var grown := if value.Str? then before + Zeros(next, |value.s| + 1) else before;
    if Mapped(mid, Binding.Ptr(m, buf, offset), m.platform.PointerSize()) {
      MappedGrows(mid, grown, Binding.Ptr(m, buf, offset), m.platform.PointerSize());
    }
    if Mapped(grown, Binding.Ptr(m, buf, offset), m.platform.PointerSize()) {
      MappedGrows(grown, mid, Binding.Ptr(m, buf, offset), m.platform.PointerSize());
    }
  }

  /**
   * In a new Buffer that covers the slot of a kind, the slot can always be written, so
   * whether `set` at indirection 1 succeeds depends on the value alone.
   */
  lemma FreshAccepts(m: Memory, bytes: map<int, byte>, handles: nat, next: nat, buf: Region, kind: Kind, value: Value)
    requires m.platform.Valid() && Mapped(bytes, buf.address, buf.length) && SlotWidth(m, kind) <= buf.length
    requires Binding.Ptr(m, buf, 0) == buf.address
    ensures ScalarAccepts(m, bytes, handles, next, buf, 0, kind, value) <==> ValueAccepted(m, kind, value, handles, next)
  {
    assert buf.address + 0 == buf.address;
    var grown := if kind == CStringKind && value.Str? then bytes + Zeros(next, |value.s| + 1) else bytes;
    MappedGrows(bytes, grown, buf.address, SlotWidth(m, kind));
  }

  /** The library stays valid while memory only grows and its own Buffers stay in place. */
  lemma StillValid(lib: Library, before: map<int, byte>)
    requires lib.mem.Valid() && lib.NULL.address == 0 && lib.NULL.length == 0
    requires Reversal.Whole(before, lib.int64temp, 0) && Reversal.Whole(before, lib.uint64temp, 0)
    requires before.Keys <= lib.mem.bytes.Keys
    ensures lib.Valid()
  {
    MappedGrows(before, lib.mem.bytes, lib.int64temp.address + 0, 8);
    MappedGrows(before, lib.mem.bytes, lib.uint64temp.address + 0, 8);
  }
}
