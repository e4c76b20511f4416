/**
 * The facts the native addon reports about the machine it was compiled for: the `sizeof`
 * and `alignof` tables and the byte order. They are compiler-derived constants, so the
 * model takes them as a parameter and states only what every C compiler guarantees and
 * what the library checks when it loads.
 */
module Native {
  import opened Bytes

  /** The names the addon's `sizeof` table defines. */
  const SizeNames: set<string> := {
    "int8", "uint8", "int16", "uint16", "int32", "uint32", "int64", "uint64", "float", "double",
    "bool", "byte", "char", "uchar", "short", "ushort", "int", "uint", "long", "ulong",
    "longlong", "ulonglong", "pointer", "size_t", "Object"
  }

  /** The names the addon's `alignof` table defines: all of the above except `byte`. */
  const AlignNames: set<string> := SizeNames - {"byte"}

  /** The C type names the library turns into aliases of a fixed-width integer type. */
  const TypedefNames: set<string> := {
    "bool", "byte", "char", "uchar", "short", "ushort", "int", "uint", "long", "ulong",
    "longlong", "ulonglong", "size_t"
  }

  datatype Platform = Platform(sizeOf: map<string, nat>, alignOf: map<string, nat>, endianness: Endianness) {

    /** The fixed-width entries have their exact widths. */
    predicate FixedWidths()
      requires SizeNames <= sizeOf.Keys
    {
      sizeOf["int8"] == 1 && sizeOf["uint8"] == 1 && sizeOf["int16"] == 2 && sizeOf["uint16"] == 2
      && sizeOf["int32"] == 4 && sizeOf["uint32"] == 4 && sizeOf["int64"] == 8 && sizeOf["uint64"] == 8
    }

    /**
     * What the typedef loop asserts when the library loads: every typedef'd C type is 1, 2,
     * 4 or 8 bytes wide, so a fixed-width type of that width exists.
     */
    predicate TypedefsLoadable()
      requires SizeNames <= sizeOf.Keys
    {
      forall name :: name in TypedefNames ==> sizeOf[name] in {1, 2, 4, 8}
    }

    /**
     * A platform the library can load on: both tables have their keys, every size and
     * alignment is positive (loading asserts the alignments), and the widths fit.
     */
    predicate Valid() {
      (forall k :: k in SizeNames ==> k in sizeOf && sizeOf[k] >= 1)
      && (forall k :: k in AlignNames ==> k in alignOf && alignOf[k] >= 1)
      && "byte" !in alignOf
      && FixedWidths() && TypedefsLoadable()
    }

    /** `sizeof.pointer`: the width of an address in bytes. */
    function PointerSize(): (n: nat)
      requires Valid()
      ensures n >= 1
    {
      sizeOf["pointer"]
    }

    /** The number of distinct addresses: every address is below this bound. */
    function AddressLimit(): (n: nat)
      requires Valid()
      ensures n >= 256
    {
      Pow256(PointerSize())
    }
  }
}
