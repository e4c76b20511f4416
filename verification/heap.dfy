/**
 * The process memory the addon reads and writes through raw pointers, and the JavaScript
 * values that cross the boundary. Memory is a partial map from address to byte: an
 * address outside the map belongs to no allocation, and touching it is reported as
 * `Unmapped` instead of the crash or garbage the native code would produce.
 *
 * A Buffer is a `Region`: a start address and a length (both fixed at creation) plus the
 * two properties lib/ref.js hangs on Buffer objects, `type` and `_refs`.
 */
module Heap {
  import opened Wrappers
  import opened Bytes
  import opened Native
  import opened Types

  /** The JavaScript values the library passes around; strings are their encoded bytes. */
  datatype Value =
    | Undefined
    | Null
    | Bool(b: bool)
    | Num(n: int)
    | Str(s: seq<byte>)
    | Buf(r: Region)
    | Obj(id: nat)

  /** JavaScript truthiness. */
  predicate Truthy(v: Value) {
    match v
    case Undefined => false
    case Null => false
    case Bool(b) => b
    case Num(n) => n != 0
    case Str(s) => s != []
    case Buf(_) => true
    case Obj(_) => true
  }

  /** A Buffer: a view of `length` bytes at `address`, with the properties ref attaches to it. */
  class Region {
    const address: nat
    const length: nat
    /** `buffer.type`: absent, a type name, or a descriptor. */
    var typeSpec: Option<TypeSpec>
    /** `buffer._refs`: absent until something is attached. */
    var refs: Option<seq<Value>>

    constructor (address: nat, length: nat)
      ensures this.address == address && this.length == length
      ensures typeSpec == None && refs == None
    {
      this.address := address;
      this.length := length;
      typeSpec := None;
      refs := None;
    }

    /** What `_refs` holds, reading an absent list as empty. */
    function Refs(): seq<Value>
      reads this
    {
      if refs.Some? then refs.value else []
    }
  }

  /** Every address in [a, a + n) belongs to some allocation. */
  predicate Mapped(bytes: map<int, byte>, a: int, n: nat) {
    forall k :: a <= k < a + n ==> k in bytes
  }

  /** The n bytes at a. */
  function Load(bytes: map<int, byte>, a: int, n: nat): (bs: seq<byte>)
    requires Mapped(bytes, a, n)
    ensures |bs| == n && forall i :: 0 <= i < n ==> bs[i] == bytes[a + i]
  {
    seq(n, i requires 0 <= i < n => bytes[a + i])
  }

  /**
   * The memory after writing bs at a: the written bytes read back, every other byte is
   * unchanged, and no allocation appears or disappears.
   */
  function Store(bytes: map<int, byte>, a: int, bs: seq<byte>): (r: map<int, byte>)
    requires Mapped(bytes, a, |bs|)
    ensures r.Keys == bytes.Keys
    ensures Mapped(r, a, |bs|) && Load(r, a, |bs|) == bs
    ensures forall k :: k in bytes && !(a <= k < a + |bs|) ==> r[k] == bytes[k]
  {
    map k | k in bytes :: if a <= k < a + |bs| then bs[k - a] else bytes[k]
  }

  /** n zero bytes at a, as fresh memory. */
  function Zeros(a: int, n: nat): (z: map<int, byte>)
    ensures Mapped(z, a, n) && forall k :: k in z ==> a <= k < a + n && z[k] == 0
  {
    if n == 0 then map[] else Zeros(a, n - 1)[a + n - 1 := 0]
  }

  /** A NUL-terminated string of n non-NUL bytes starts at a. */
  predicate Terminated(bytes: map<int, byte>, a: int, n: nat) {
    Mapped(bytes, a, n + 1) && bytes[a + n] == 0 && forall k :: a <= k < a + n ==> bytes[k] != 0
  }

  /**
   * The C string at a: the bytes up to the first NUL. `None` when the scan runs off the
   * mapped memory before it meets a NUL.
   */
  function CStringAt(bytes: map<int, byte>, a: int): (r: Option<seq<byte>>)
    ensures r.Some? ==> Terminated(bytes, a, |r.value|) && r.value == Load(bytes, a, |r.value|)
    decreases set k | k in bytes && k >= a
  {
    if a !in bytes then None
    else if bytes[a] == 0 then Some([])
    else
      var later, here := set k | k in bytes && k >= a + 1, set k | k in bytes && k >= a;
      assert later <= here && a in here && a !in later;
      match CStringAt(bytes, a + 1)
      case None => None
      case Some(s) => Some([bytes[a]] + s)
  }

  /** Conversely, a terminated string is found in full: there is no other C string at a. */
  lemma {:induction false} CStringAtTerminated(bytes: map<int, byte>, a: int, n: nat)
    requires Terminated(bytes, a, n)
    ensures CStringAt(bytes, a) == Some(Load(bytes, a, n))
    decreases n
  {
    if n > 0 {
      CStringAtTerminated(bytes, a + 1, n - 1);
      assert Load(bytes, a, n) == [bytes[a]] + Load(bytes, a + 1, n - 1);
    }
  }

  /**
   * The memory of the process: the mapped bytes, the table of object handles `writeObject`
   * has created, and the next free address of a bump allocator.
   */
  class Memory {
    const platform: Platform
    var bytes: map<int, byte>
    var handles: seq<Value>
    var next: nat

    /**
     * Address 0 is never mapped, every mapped address lies below the next free one, and the
     * next free one is itself an address (the top of the space is never handed out).
     */
    predicate Valid()
      reads this
    {
      platform.Valid() && 1 <= next < platform.AddressLimit()
      && forall k :: k in bytes ==> 1 <= k < next
    }

    constructor (platform: Platform)
      requires platform.Valid()
      ensures this.platform == platform && Valid()
      ensures bytes == map[] && handles == [] && next == 1
    {
      this.platform := platform;
      bytes := map[];
      handles := [];
      next := 1;
    }

    /**
     * `new Buffer(size)`: a fresh region of size bytes at the next free address, which is
     * never NULL; `OutOfMemory` once the addresses of the platform are used up.
     */
    method Allocate(size: nat) returns (r: Result<Region>)
      requires Valid()
      modifies this
      ensures Valid() && handles == old(handles)
      ensures r.Failure? ==> r.error == OutOfMemory && old(next) + size >= platform.AddressLimit()
      ensures r.Failure? ==> bytes == old(bytes) && next == old(next)
      ensures r.Success? ==> old(next) + size < platform.AddressLimit()
      ensures r.Success? ==> fresh(r.value) && r.value.address == old(next) >= 1 && r.value.length == size
      ensures r.Success? ==> r.value.typeSpec == None && r.value.refs == None
      ensures r.Success? ==> bytes == old(bytes) + Zeros(old(next), size) && next == old(next) + size
      ensures r.Success? ==> Mapped(bytes, r.value.address, size) && Extends(old(bytes), bytes)
    {
      if next + size >= platform.AddressLimit() {
        return Failure(OutOfMemory);
      }
      var region := new Region(next, size);
      bytes := bytes + Zeros(next, size);
      next := next + size;
      return Success(region);
    }

  }

  /** after differs from before at most in the n bytes at a, and no allocation appears or disappears. */
  predicate OnlyAt(before: map<int, byte>, after: map<int, byte>, a: int, n: nat) {
    after.Keys == before.Keys
    && forall k :: k in before && !(a <= k < a + n) ==> after[k] == before[k]
  }

  /** The window an OnlyAt names may be given by any expression of the same address. */
  lemma OnlyAtMoved(before: map<int, byte>, after: map<int, byte>, a: int, b: int, n: nat)
    requires a == b && OnlyAt(before, after, a, n)
    ensures OnlyAt(before, after, b, n)
  {
  }

  /** The bytes at a may be named by any expression of the same address. */
  lemma LoadMoved(bytes: map<int, byte>, a: int, b: int, n: nat)
    requires a == b && Mapped(bytes, a, n)
    ensures Mapped(bytes, b, n) && Load(bytes, b, n) == Load(bytes, a, n)
  {
  }

  /** after differs from before at most in the n bytes at a and the n bytes at b. */
  predicate OnlyAtEither(before: map<int, byte>, after: map<int, byte>, a: int, b: int, n: nat) {
    after.Keys == before.Keys
    && forall k :: k in before && !(a <= k < a + n) && !(b <= k < b + n) ==> after[k] == before[k]
  }

  /** A change confined to one window followed by one confined to another. */
  lemma OnlyAtThen(before: map<int, byte>, mid: map<int, byte>, after: map<int, byte>, a: int, b: int, n: nat)
    requires OnlyAt(before, mid, a, n) && OnlyAt(mid, after, b, n)
    ensures OnlyAtEither(before, after, a, b, n)
  {
  }

  /** Every byte of before is still there with the same value: after at most adds memory. */
  predicate Extends(before: map<int, byte>, after: map<int, byte>) {
    forall k :: k in before ==> k in after && after[k] == before[k]
  }

  /** after keeps every byte of before outside the n bytes at a, and may have more memory. */
  predicate Keeps(before: map<int, byte>, after: map<int, byte>, a: int, n: nat) {
    forall k :: k in before ==> k in after && (!(a <= k < a + n) ==> after[k] == before[k])
  }

  /** A change confined to a window keeps everything outside it. */
  lemma OnlyAtKeeps(before: map<int, byte>, after: map<int, byte>, a: int, n: nat)
    requires OnlyAt(before, after, a, n)
    ensures Keeps(before, after, a, n)
  {
    forall k | k in before
      ensures k in after
    {
      assert k in before.Keys;
    }
  }

  /** A store leaves the bytes of a window it does not overlap as they were. */
  lemma LoadApart(bytes: map<int, byte>, a: int, bs: seq<byte>, b: int, n: nat)
    requires Mapped(bytes, a, |bs|) && Mapped(bytes, b, n)
    requires a + |bs| <= b || b + n <= a
    ensures Mapped(Store(bytes, a, bs), b, n) && Load(Store(bytes, a, bs), b, n) == Load(bytes, b, n)
  {
    var after := Store(bytes, a, bs);
    forall i | 0 <= i < n
      ensures b + i in after && Load(after, b, n)[i] == Load(bytes, b, n)[i]
    {
      assert b + i in bytes.Keys;
    }
  }

  /** Growing memory and then changing it only above every address it had before only adds memory. */
  lemma ExtendsThenKeeps(before: map<int, byte>, mid: map<int, byte>, after: map<int, byte>, a: int, n: nat)
    requires Extends(before, mid) && Keeps(mid, after, a, n)
    requires forall k :: k in before ==> k < a
    ensures Extends(before, after)
  {
  }

  /** Memory that extends another has every address the other has. */
  lemma ExtendsKeys(before: map<int, byte>, after: map<int, byte>)
    requires Extends(before, after)
    ensures before.Keys <= after.Keys
  {
    forall k | k in before.Keys
      ensures k in after.Keys
    {
      assert k in before;
    }
  }

  /** Bytes that were memory read the same in a memory that extends it. */
  lemma LoadExtends(before: map<int, byte>, after: map<int, byte>, a: int, n: nat)
    requires Extends(before, after) && Mapped(before, a, n)
    ensures Mapped(after, a, n) && Load(after, a, n) == Load(before, a, n)
  {
  }

  /** A store keeps every address below the bound it was under. */
  lemma KeysBelow(before: map<int, byte>, after: map<int, byte>, next: int)
    requires after.Keys == before.Keys && forall k :: k in before ==> 1 <= k < next
    ensures forall k :: k in after ==> 1 <= k < next
  {
    forall k | k in after
      ensures 1 <= k < next
    {
      assert k in before.Keys;
    }
  }

  /** Memory only grows: a mapped range stays mapped across stores and allocations. */
  lemma MappedGrows(before: map<int, byte>, after: map<int, byte>, a: int, n: nat)
    requires before.Keys <= after.Keys && Mapped(before, a, n)
    ensures Mapped(after, a, n)
  {
  }
}
