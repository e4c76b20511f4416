/**
 * The older entry point, index.js: the same addon, with its own `ref` (a pointer-sized
 * Buffer with no type that holds the address of its argument) and its own `NULL_POINTER`.
 * Its `_attach`, `writeObject` and `writePointer` are the ones in module Retention.
 */
module Index {
  import opened Wrappers
  import opened Bytes
  import opened Heap
  import Binding
  import Retention

  /**
   * `ref(buffer)` of index.js: a new Buffer of pointer size, then `writePointer` into it at
   * offset 0. The new Buffer carries no type; it holds the address and keeps the argument
   * alive. A pointer that is neither a Buffer nor null is refused after the allocation.
   */
  method Ref(m: Memory, ptr: Value) returns (r: Result<Region>)
    requires m.Valid()
    modifies m
    ensures m.Valid() && m.handles == old(m.handles) && Extends(old(m.bytes), m.bytes)
    ensures old(m.next) + m.platform.PointerSize() >= m.platform.AddressLimit() ==> r == Failure(OutOfMemory)
    ensures old(m.next) + m.platform.PointerSize() < m.platform.AddressLimit() && !(ptr.Null? || ptr.Buf?)
            ==> r == Failure(NotABuffer)
    ensures r.Success? <==> (ptr.Null? || ptr.Buf?) && old(m.next) + m.platform.PointerSize() < m.platform.AddressLimit()
    ensures r.Success? ==> fresh(r.value) && r.value.address == old(m.next) && r.value.length == m.platform.PointerSize()
    ensures r.Success? ==> r.value.typeSpec == None && r.value.refs == Some([ptr])
    ensures r.Success? ==> Binding.PointerAt(m, r.value, 0) == Success(Binding.StoredAddress(m, ptr))
  {
    var a := m.Allocate(m.platform.PointerSize());
    if a.Failure? {
      return Failure(a.error);
    }
    var reference := a.value;
    ghost var before := m.bytes;
    assert Binding.Ptr(m, reference, 0) == reference.address;
    assert reference.Refs() == [] && [] + [ptr] == [ptr];
    var o := Retention.WritePointer(m, reference, 0, ptr);
    if o.Fail? {
      return Failure(o.error);
    }
    OnlyAtKeeps(before, m.bytes, reference.address, m.platform.PointerSize());
    ExtendsThenKeeps(old(m.bytes), before, m.bytes, reference.address, m.platform.PointerSize());
    return Success(reference);
  }

  /**
   * `NULL_POINTER` of index.js: `ref(NULL)`, a pointer-sized Buffer holding address 0 and
   * keeping the empty NULL Buffer alive.
   */
  method NullPointer(m: Memory) returns (r: Result<Region>)
    requires m.Valid()
    modifies m
    ensures m.Valid() && Extends(old(m.bytes), m.bytes)
    ensures r.Success? <==> old(m.next) + m.platform.PointerSize() < m.platform.AddressLimit()
    ensures r.Failure? ==> r.error == OutOfMemory
    ensures r.Success? ==> fresh(r.value) && r.value.length == m.platform.PointerSize()
    ensures r.Success? ==> Binding.PointerAt(m, r.value, 0) == Success(0)
    ensures r.Success? ==> r.value.refs.Some? && |r.value.refs.value| == 1
                           && r.value.refs.value[0].Buf? && r.value.refs.value[0].r.address == 0
                           && r.value.refs.value[0].r.length == 0
  {
    var nul := Binding.NullBuffer();
    r := Ref(m, Buf(nul));
  }
}
