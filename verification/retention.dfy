/**
 * Keeping memory reachable. The addon does not keep the Buffer whose address `writePointer`
 * stores, nor the object `writeObject` stores (it holds only a weak handle), nor the Buffer
 * a reinterpreted view looks into. The JavaScript layer makes up for it with `_attach`: the
 * holder gets a `_refs` list and every item it must keep alive is appended to it. The list
 * is the reachability edge set of the model; collection itself is not modelled.
 *
 * lib/ref.js and index.js define `_attach` and the `writeObject`/`writePointer` wrappers
 * with identical code, so the members here model both.
 */
module Retention {
  import opened Wrappers
  import opened Bytes
  import opened Heap
  import Binding

  /**
   * `_attach(buf, obj)`: creates the list when the holder has none and appends obj. Earlier
   * entries stay where they were, and an item attached twice is listed twice.
   */
  method Attach(buf: Region, obj: Value)
    modifies buf
    ensures buf.refs == Some(old(buf.Refs()) + [obj])
    ensures buf.typeSpec == old(buf.typeSpec)
  {
    if buf.refs.None? {
      buf.refs := Some([]);
    }
    buf.refs := Some(buf.refs.value + [obj]);
  }

  /**
   * The `writePointer` wrapper: the native write, then the written input is attached to
   * the holder. A refused write throws before anything is attached.
   */
  method WritePointer(m: Memory, buf: Region, offset: int, ptr: Value) returns (o: Outcome)
    requires m.Valid()
    modifies m, buf
    ensures m.Valid() && m.handles == old(m.handles) && m.next == old(m.next)
    ensures !(ptr.Null? || ptr.Buf?) ==> o == Fail(NotABuffer)
    ensures (ptr.Null? || ptr.Buf?) && !Mapped(old(m.bytes), Binding.Ptr(m, buf, offset), m.platform.PointerSize())
            ==> o == Fail(Unmapped)
    ensures o.Fail? ==> m.bytes == old(m.bytes) && buf.refs == old(buf.refs)
    ensures o.Pass? <==> (ptr.Null? || ptr.Buf?) && Mapped(old(m.bytes), Binding.Ptr(m, buf, offset), m.platform.PointerSize())
    ensures o.Pass? ==> m.bytes == Store(old(m.bytes), Binding.Ptr(m, buf, offset),
      Encode(m.platform.endianness, Binding.StoredAddress(m, ptr), m.platform.PointerSize()))
    ensures o.Pass? ==> Binding.PointerAt(m, buf, offset) == Success(Binding.StoredAddress(m, ptr))
    ensures o.Pass? ==> buf.refs == Some(old(buf.Refs()) + [ptr])
    ensures buf.typeSpec == old(buf.typeSpec)
  {
    o := Binding.WritePointer(m, buf, offset, ptr);
    if o.Pass? {
      Attach(buf, ptr);
    }
  }

  /**
   * The `writeObject` wrapper: the native write, then the object is attached to the
   * holder, so it lives at least as long as the Buffer that refers to it.
   */
  method WriteObject(m: Memory, buf: Region, offset: int, obj: Value) returns (o: Outcome)
    requires m.Valid()
    modifies m, buf
    ensures m.Valid() && m.next == old(m.next)
    ensures !Mapped(old(m.bytes), Binding.Ptr(m, buf, offset), Binding.ObjectSlot(m)) ==> o == Fail(Unmapped)
    ensures o.Pass? <==> Binding.ObjectWritable(m, old(m.bytes), |old(m.handles)|, buf, offset)
    ensures o.Fail? ==> m.bytes == old(m.bytes) && m.handles == old(m.handles) && buf.refs == old(buf.refs)
    ensures o.Pass? ==> m.handles == old(m.handles) + [obj]
    ensures o.Pass? ==> m.bytes == Store(old(m.bytes), Binding.Ptr(m, buf, offset),
      Encode(m.platform.endianness, |m.handles|, Binding.ObjectSlot(m)))
    ensures o.Pass? ==> Binding.ReadObject(m, buf, offset) == Success(obj)
    ensures o.Pass? ==> buf.refs == Some(old(buf.Refs()) + [obj])
    ensures buf.typeSpec == old(buf.typeSpec)
  {
    o := Binding.WriteObject(m, buf, offset, obj);
    if o.Pass? {
      Attach(buf, obj);
    }
  }

  /**
   * The `reinterpret(buffer, size)` wrapper: the native view at offset 0, which then holds
   * the Buffer it looks into.
   */
  method Reinterpret(m: Memory, buf: Region, size: int) returns (r: Result<Region>)
    requires m.Valid()
    ensures Binding.IsNull(m, buf, 0) <==> r.Failure?
    ensures r.Failure? ==> r.error == NullPointer
    ensures r.Success? ==> fresh(r.value) && r.value.address == buf.address % m.platform.AddressLimit()
    ensures r.Success? ==> r.value.length == ToUint32(size) && r.value.typeSpec == None
    ensures r.Success? ==> r.value.refs == Some([Buf(buf)])
  {
    r := Binding.ReinterpretBuffer(m, buf, size, 0);
    if r.Success? {
      assert r.value.Refs() == [];
      Attach(r.value, Buf(buf));
      assert [] + [Buf(buf)] == [Buf(buf)];
    }
  }

  /**
   * The `reinterpretUntilZeros(buffer, size)` wrapper: the native scan from offset 0, whose
   * view then holds the Buffer it looks into.
   */
  method ReinterpretUntilZeros(m: Memory, buf: Region, numZeros: int) returns (r: Result<Region>)
    requires m.Valid()
    ensures Binding.IsNull(m, buf, 0) ==> r == Failure(NullPointer)
    ensures !Binding.IsNull(m, buf, 0)
            ==> r.Success? == Binding.ScanFrom(m.bytes, Binding.Ptr(m, buf, 0), ToUint32(numZeros), 0).Success?
    ensures r.Failure? ==> r.error == NullPointer || r.error == Unmapped
    ensures r.Success? ==> fresh(r.value) && r.value.address == Binding.Ptr(m, buf, 0) && r.value.typeSpec == None
    ensures r.Success? ==> Binding.ZeroScanResult(m.bytes, Binding.Ptr(m, buf, 0), ToUint32(numZeros), r.value.length)
    ensures r.Success? ==> r.value.refs == Some([Buf(buf)])
  {
    r := Binding.ReinterpretUntilZeros(m, buf, numZeros, 0);
    if r.Success? {
      assert r.value.Refs() == [];
      Attach(r.value, Buf(buf));
      assert [] + [Buf(buf)] == [Buf(buf)];
    }
  }
}
