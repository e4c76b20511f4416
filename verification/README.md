# ref: pointers, types and raw memory for Node Buffers, modelled in Dafny

`ref` turns Node.js Buffers into C pointers. A Buffer is a view of `length` bytes at a
machine address; the native addon (src/binding.cc) reads and writes through
`Buffer::Data(buf) + offset`, and the JavaScript layer (lib/ref.js, with the older entry
point index.js) adds type descriptors and the type-directed operations on top.

The model covers:

- **Type descriptors** (`Types`): `{ size, indirection, get, set, alignment, name }` objects,
  `refType` and `derefType`, the builtin table with its typedef aliases, and `coerceType`.
  `derefType(refType(t))` hands back `t` itself, because `refType` builds a descriptor whose
  prototype is `t`.
- **The pointer engine** (`Ref`, `Exports`): `get`, `set`, `alloc`, `ref`, `deref`,
  `getType`, `allocCString` and `writeCString`, over an abstract memory.
  - The memory (`Heap`) is a partial map from addresses to bytes, plus the table of object
    handles, plus a bump allocator whose fresh memory is zero-filled.
  - Address 0 is never memory.
  - A read or write of bytes that are not memory gives `Unmapped`. This stands in for the
    crash or undefined behaviour of the C code.
- **The addon** (`Binding`): `address`, `isNull`, `readPointer`/`writePointer`,
  `readObject`/`writeObject`, `readInt64`/`writeInt64`, `readUInt64`/`writeUInt64`,
  `readCString`, `reinterpret` and `reinterpretUntilZeros`.
  - Pointer arithmetic wraps modulo the address space.
  - The 64-bit readers give a Number within ±2^53 and decimal text beyond it (`Int64`,
    `Decimal`).
- **Retention** (`Retention`, `Index`): `_attach` and the wrappers that keep the referenced
  Buffer or object reachable through the holder's `_refs` list.
- **The opposite byte order** (`Reversal`, `Exports`): the four `readInt64BE`-style
  functions that reverse eight bytes through a scratch Buffer.
- **Node's Buffer accessors** (`NodeBuffer`): what the builtin types call.
- **The platform** (`Native`): the `sizeof`/`alignof` tables and the byte order, taken as a
  parameter.
- **The package's own test cases** (`Scenarios`), stated as methods over the model.

## Model

| member | source | states |
|---|---|---|
| Bytes.DecodeEncode | lib/ref.js:268-295 | decoding the n-byte encoding of a value below 256^n gives the value back, in either byte order |
| Bytes.EncodeDecode | lib/ref.js:268-295 | a byte sequence is the encoding of its own decoded value |
| Bytes.EncodeReversed | lib/ref.js:284-295 | the bytes of a value in one order, reversed, are its bytes in the opposite order |
| Bytes.DecodeReversed | lib/ref.js:272-283 | reading reversed bytes in one order equals reading the original bytes in the opposite order |
| Bytes.SignedRoundTrip | src/binding.cc:277-345 | an in-range signed value survives the two's-complement bit pattern and back |
| Bytes.UnsignedRoundTrip | src/binding.cc:277-345 | a bit pattern read as signed and converted back is the same pattern |
| Bytes.FromToLE | src/binding.cc:277-345 | little-endian encoding of a value below 256^n decodes back to it (by induction on n) |
| Bytes.ToFromLE | src/binding.cc:277-345 | every byte sequence is the little-endian encoding of its value (by induction) |
| Decimal.StrtollFormat | src/binding.cc:296-336 | strtoll reads back exactly the int64 that snprintf("%lld") printed |
| Decimal.StrtoullFormat | src/binding.cc:373-413 | strtoull reads back exactly the uint64 that snprintf("%llu") printed |
| Decimal.ValueOfDigits | src/binding.cc:296-304 | the decimal digits of n denote n |
| Decimal.DigitRunOfDigits | src/binding.cc:330-336 | a run made only of digits is read to its end |
| Int64.Int64ValueRoundTrip | src/binding.cc:277-345 | whatever readInt64 returns, Number or text, writeInt64 takes back as the same int64 |
| Int64.UInt64ValueRoundTrip | src/binding.cc:354-422 | whatever readUInt64 returns, writeUInt64 takes back as the same uint64 |
| Int64.Int64BytesRoundTrip | src/binding.cc:277-345 | an int64 survives its 8-byte two's-complement encoding in either byte order |
| Int64.UInt64BytesRoundTrip | src/binding.cc:354-422 | a uint64 survives its 8-byte encoding in either byte order |
| Native.Platform.PointerSize | src/binding.cc:565 | the pointer width is at least one byte |
| Native.Platform.AddressLimit | src/binding.cc:565 | the address space has at least 256 addresses |
| Types.WidthOf | lib/ref.js:755-770 | a width exists exactly for 1, 2, 4 and 8 bytes, and it has that many bytes |
| Types.RefType | lib/ref.js:21-29 | one more indirection level; size, accessors and alignment inherited; a set name gains '*' |
| Types.DerefType | lib/ref.js:39-47 | one less indirection level; size, accessors and alignment kept |
| Types.DerefRefType | lib/ref.js:39-47 | derefType(refType(t)) is t itself |
| Types.RefN | lib/ref.js:74-87 | refType applied k times adds k levels and keeps size, accessors and alignment |
| Types.Builtin | lib/ref.js:478-644 | a builtin has indirection 1, its name, its accessors, the platform's size and a positive alignment |
| Types.Alias | lib/ref.js:755-777 | a typedef'd C name has the platform's size and a positive alignment, and reads as the fixed-width integer of that width and signedness (bool keeps bool accessors) |
| Types.CStringType | lib/ref.js:655-670 | CString is pointer-sized and pointer-aligned with indirection 1 |
| Types.Entry | lib/ref.js:456-800 | every entry has indirection 1; void has size 0 and no alignment; every other entry has a positive size and alignment; Utf8String is CString; typedef names are their aliases |
| Types.Table | lib/ref.js:798-800 | the table's names are exactly the builtin, typedef and alias names |
| Types.CharPtrType | lib/ref.js:824 | `char *` has indirection 2 and char's size and integer accessors |
| Types.DefaultType | lib/ref.js:103-117 | the default descriptor has indirection 1, the Buffer's length as size, and throwing accessors |
| Types.BuiltinFacts | lib/ref.js:773-800 | every table entry has indirection 1, a positive size and alignment except void, and its own name |
| Types.TypedefFacts | lib/ref.js:755-770 | a typedef'd name has the platform's size and is signed exactly when its name is not unsigned |
| Types.RemoveSpaces | lib/ref.js:67 | the result contains no white space |
| Types.Lower | lib/ref.js:67 | lower case is taken character by character |
| Types.RemoveStars | lib/ref.js:74-87 | the result contains no '*' |
| Types.Coerce | lib/ref.js:60-93 | a descriptor is returned unchanged; a table name gives its table entry; it fails, with InvalidTypeSpecifier, exactly for a name that is neither a table name nor known in canonical form; a resolved name has indirection ≥ 1 |
| Types.CoerceName | lib/ref.js:62-70 | a table name gives its table entry; the name fails exactly when it is not a table name and its canonical form is neither "pointer", "string" nor a table name once its stars are removed |
| Types.CoerceCanonical | lib/ref.js:67-91 | the canonical branch fails, with InvalidTypeSpecifier, exactly when the name is not "pointer" or "string" and its star-free form is not a table name; a success has indirection ≥ 1 |
| Types.RefTypeOf | lib/ref.js:21-29 | succeeds iff coercion does; one level more than the coerced type, same size |
| Types.DerefTypeOf | lib/ref.js:39-47 | succeeds iff coercion does; one level less than the coerced type, same size |
| Types.RemoveSpacesAppend | lib/ref.js:67 | removing white space distributes over concatenation (by induction) |
| Types.RemoveStarsAppend | lib/ref.js:74-87 | removing and counting stars distribute over concatenation (by induction) |
| Types.StarsCounted | lib/ref.js:74-87 | from a plain name followed by k stars, coerceType strips exactly those k stars and counts k |
| Types.CanonicalStarred | lib/ref.js:67-87 | a plain name, padding and k stars canonicalise to the name and k stars, of which k are counted |
| Types.CoerceNameCanonical | lib/ref.js:62-67 | a name that is not a table name resolves through its canonical form |
| Types.CoerceStarredName | test/coerce.js:12-15 | a table name followed by white space and k stars is that builtin with k more levels, as "void *" is void with one more |
| Types.CoerceUnknownStarred | lib/ref.js:74-91 | a plain name outside the table, followed by white space and stars, makes coerceType throw an invalid type specifier |
| Types.CoerceStarredCanonical | lib/ref.js:74-87 | the starred name that is not a table name takes the canonical branch to the same descriptor |
| Types.StarredTableName | lib/ref.js:62-64 | the only table name of the shape name, padding and stars is the plain name |
| Types.StarredCanonical | lib/ref.js:74-87 | a table name with k stars in canonical form gains k levels |
| Types.TableNamesAreWords | lib/ref.js:798-800 | every table name consists of letters, digits and '_' |
| Types.CoercePointer | lib/ref.js:68-70 | "pointer" is `void *`: indirection 2, size 0 |
| Types.CoerceString | lib/ref.js:71-72 | "string" is CString |
| Types.CoerceLegacyName | lib/ref.js:67 | a plain name that is not a table name is its own canonical form |
| Heap.Region.constructor | lib/ref.js:198-214 | a new Buffer has the given address and length, no type and no `_refs` |
| Heap.Store | src/binding.cc:245-268 | the written bytes read back, every other byte is unchanged, no allocation appears or disappears |
| Heap.Zeros | lib/ref.js:198-214 | fresh memory is n zero bytes at a |
| Heap.CStringAt | src/binding.cc:433-450 | a found C string is terminated and is the bytes up to the NUL |
| Heap.CStringAtTerminated | src/binding.cc:433-450 | a terminated string at a is the C string found there (by induction) |
| Heap.Memory.constructor | src/binding.cc:536-625 | start state: no memory, no handles, the first free address is 1 |
| Heap.Memory.Allocate | lib/ref.js:198-214 | OutOfMemory iff the request reaches the top of the space; otherwise a fresh zero-filled Buffer at the next free address, never NULL, and memory only grows |
| Heap.OnlyAtKeeps | src/binding.cc:245-268 | a write confined to a window keeps everything outside it |
| Heap.LoadApart | lib/ref.js:268-295 | a store leaves a window it does not overlap as it was |
| Heap.ExtendsThenKeeps | lib/ref.js:198-214 | allocating and then writing above all earlier memory only adds memory |
| Heap.LoadExtends | lib/ref.js:312-316 | bytes read the same in memory that extends it |
| Heap.MappedGrows | lib/ref.js:198-214 | mapped memory stays mapped across stores and allocations |
| NodeBuffer.FromPattern | lib/ref.js:514-568 | the number a bit pattern denotes is in range for its width and maps back to the pattern |
| NodeBuffer.CheckedPattern | lib/ref.js:514-568 | a checked writer refuses non-numbers and out-of-range numbers, otherwise stores the pattern that reads back as the number |
| NodeBuffer.PatternRoundTrip | lib/ref.js:514-568 | every pattern is what the writer stores for the number it denotes |
| NodeBuffer.ReadChecked | lib/ref.js:514-568 | out of bounds or unmapped fails; otherwise an in-range number that the writer stores as exactly those bytes |
| NodeBuffer.WriteChecked | lib/ref.js:514-568 | bounds checked before the value; a failure changes nothing; a success changes only the width's bytes and reads back the value |
| NodeBuffer.CheckedReadBack | lib/ref.js:514-568 | bytes holding the stored pattern of v read back as v |
| NodeBuffer.IndexGet | lib/ref.js:272-283 | an index outside the Buffer reads 0; inside, the byte at that address |
| NodeBuffer.IndexSet | lib/ref.js:284-295 | a store outside the Buffer is ignored; inside, exactly that byte changes |
| Binding.Ptr | src/binding.cc:43-57 | the machine address lies in the address space and is the plain sum when the sum fits |
| Binding.NullBuffer | src/binding.cc:110-117 | the NULL Buffer has address 0 and length 0 |
| Binding.Address | src/binding.cc:43-57 | the signed address is zero exactly for NULL and has the address as its bit pattern |
| Binding.SlotRoundTrip | src/binding.cc:245-268 | an integer stored in an n-byte slot reads back as itself |
| Binding.PointerAt | src/binding.cc:211-233 | refused at NULL, Unmapped off memory, otherwise an address in the space |
| Binding.ReadPointer | src/binding.cc:211-233 | a fresh view of `size` (as uint32) bytes at the stored address, failing exactly as the read does |
| Binding.StoredAddress | src/binding.cc:245-268 | a Buffer's data address, NULL for null |
| Binding.WritePointer | src/binding.cc:245-268 | refuses non-Buffers; unmapped fails with nothing changed; otherwise the slot holds the address and readPointer gives it back |
| Binding.StoredInt64 | src/binding.cc:277-306 | refused at NULL or off memory; otherwise within the int64 range |
| Binding.StoredUInt64 | src/binding.cc:354-383 | refused at NULL or off memory; otherwise within the uint64 range |
| Binding.ReadInt64 | src/binding.cc:277-306 | a Number exactly within ±2^53, text otherwise; writeInt64 reads either back as the stored int64 |
| Binding.ReadUInt64 | src/binding.cc:354-383 | a Number exactly up to 2^53, text beyond; writeUInt64 reads either back as the stored uint64 |
| Binding.WriteInt64 | src/binding.cc:317-345 | refuses non-numbers and non-strings before touching memory; a success changes only the 8 bytes and stores the input's int64 |
| Binding.WriteUInt64 | src/binding.cc:394-422 | the unsigned counterpart |
| Binding.ReadCString | src/binding.cc:433-450 | refused at NULL; otherwise the terminated bytes up to the first NUL, whatever the Buffer's length, found whenever a NUL follows |
| Binding.ReinterpretBuffer | src/binding.cc:461-482 | fails iff NULL; a fresh view of `size` (as uint32) bytes at buf + offset |
| Binding.GroupFrom | src/binding.cc:516-521 | true when the rest of the group is zero, false at a non-zero byte |
| Binding.ScanFromFacts | src/binding.cc:494-531 | a scan result is a multiple of the group size below the cap, at a zero group unless capped, with no zero group before it (by induction) |
| Binding.ScanUntilZeros | src/binding.cc:509-525 | the loop computes the scan and its result is meaningful |
| Binding.ScanFailure | src/binding.cc:514-525 | the scan fails only on memory that is not mapped |
| Binding.ReinterpretUntilZeros | src/binding.cc:494-531 | refused at NULL; otherwise a fresh view whose length is the scan's result |
| Binding.ObjectSlot | src/binding.cc:568 | the handle slot is at least one byte |
| Binding.ReadObject | src/binding.cc:127-146 | refused at NULL or off memory; a success is an object some handle holds |
| Binding.WriteObject | src/binding.cc:169-190 | succeeds exactly when the slot is memory and the next handle number fits the slot; a new handle for the object is stored in the slot, and readObject gives the object back |
| Binding.ObjectReadBack | src/binding.cc:127-146 | a slot holding the newest handle reads back as its object |
| Retention.Attach | lib/ref.js:343-348 | `_refs` becomes the old list (empty when absent) with obj appended; the type is untouched |
| Retention.WritePointer | lib/ref.js:386-390 | the native write, then the input is appended to `_refs`; a refused write attaches nothing |
| Retention.WriteObject | lib/ref.js:365-369 | succeeds exactly when the native write does; the object is then appended to `_refs`, and readObject gives it back |
| Retention.Reinterpret | lib/ref.js:406-411 | the view fails iff NULL, has the wrapped address and uint32 length, and holds the original Buffer |
| Retention.ReinterpretUntilZeros | lib/ref.js:442-447 | the scan's view, which holds the original Buffer |
| Reversal.RoundStep | lib/ref.js:272-295 | one round between windows apart reads the byte held before the loop and extends what was copied |
| Reversal.ReversedByte | lib/ref.js:272-295 | after eight rounds destination byte j is source byte 7 - j |
| Reversal.CopiedReverses | lib/ref.js:272-295 | between whole windows apart the destination holds the source reversed |
| Reversal.CopiedGathers | lib/ref.js:272-283 | into a whole destination the rounds leave exactly the gathered bytes |
| Reversal.GatheredWhole | lib/ref.js:272-283 | from a whole source the gathered bytes are the source reversed |
| Reversal.CopiedOnlyAt | lib/ref.js:272-295 | only the destination window changes |
| Reversal.TouchableKeys | lib/ref.js:272-295 | whether a round can fault depends only on which addresses are memory |
| Reversal.WholeTouchable | lib/ref.js:272-295 | whole windows cannot fault |
| Reversal.GatheredInto | lib/ref.js:272-283 | after the readers' loop only the scratch bytes changed and they are the gathered bytes |
| Reversal.ScatteredFrom | lib/ref.js:284-295 | after the writers' loop only the destination changed and a whole destination holds the scratch bytes reversed |
| Reversal.CopyReversed | lib/ref.js:272-295 | the loop fails iff some byte inside a Buffer is not memory; between windows apart it leaves the copy the rounds describe |
| Ref.TypeAfterGetType | lib/ref.js:103-117 | a typed Buffer keeps its type; an untyped one gets the default descriptor of its length |
| Ref.Resolved | lib/ref.js:131-172 | a descriptor argument is used as it is; with neither argument nor type the default descriptor; failure only as an invalid type |
| Ref.ViewOfRef | lib/ref.js:131-152 | deref of a ref type gives the type back, and a view as long as alloc makes for it |
| Ref.UnsignedGet | lib/ref.js:780-784 | the unsigned reader gives a Number or text |
| Ref.ScalarGet | lib/ref.js:462-670 | void reads null; the default type throws; floats are left out; integers give numbers or text; bool gives a boolean; CString gives null exactly at a NULL pointer and otherwise the C string it points to |
| Ref.UntilNul | src/binding.cc:433-450 | a prefix with no NUL, followed by a NUL when it is shorter |
| Ref.UntilNulWhole | src/binding.cc:433-450 | the bytes are their own C string exactly when none is NUL |
| Ref.BoolReadback | lib/ref.js:780-792 | true and false, and 1 and 0, read back as the boolean |
| Ref.CStringStored | lib/ref.js:249-261 | a string written with its NUL reads back up to its first NUL |
| Ref.SetInteger | lib/ref.js:478-598 | succeeds exactly when the slot can be written and the value suits the type: a Number or String for 64 bits, otherwise a number in the width's range, which an 8-bit type may take as a non-empty string's first byte; a success changes only the width's bytes and reads back the value |
| Ref.SetBool | lib/ref.js:785-792 | a non-number is written as 1 or 0; succeeds exactly when the slot can be written and the width holds that number; only the width's bytes change and the getter gives the truth value |
| Ref.BoolWideReadback | lib/ref.js:780-792 | a 64-bit bool reads back what the unsigned 64-bit writer stored |
| Ref.BoolNarrowReadback | lib/ref.js:780-792 | a narrower bool reads back what the checked writer stored |
| Ref.WriteCString | lib/ref.js:249-261 | refuses non-strings; the string and NUL when they fit; cut short at the end of the Buffer, failing for the NUL, otherwise |
| Exports.Library.constructor | lib/ref.js:806-818 | NULL is tagged void, NULL_POINTER is a pointer-sized `void *` Buffer holding address 0 and keeping NULL alive, and both scratch Buffers are memory |
| Exports.Library.AllocCString | lib/ref.js:225-234 | NULL for null and undefined, NotAString for non-strings, OutOfMemory iff no room, otherwise a fresh `char *` Buffer of the bytes and a NUL |
| Exports.Library.ScalarSet | lib/ref.js:462-670 | succeeds exactly when the kind's setter takes the value and its slot can be written; by kind: void changes nothing; integers, bool, Object and CString write only their slot and read back the value |
| Exports.Library.SetCString | lib/ref.js:665-669 | succeeds exactly for null, undefined, or a string with room in memory, when the pointer slot is memory once the string is allocated; stores the C string's address and attaches its Buffer; the getter reads the string back |
| Exports.Library.GetAs | lib/ref.js:140-152 | below 1 an error; at 1 the type's getter; above 1 a view at the stored address, typed one level less, as long as that type |
| Exports.Library.GetType | lib/ref.js:103-117 | an untyped Buffer gets the default descriptor; the coerced type is returned |
| Exports.Library.Get | lib/ref.js:131-152 | get with the resolved descriptor |
| Exports.CStringAccepts | lib/ref.js:665-669 | once the C string is allocated, success of CString's setter comes down to the pointer slot being memory |
| Exports.FreshAccepts | lib/ref.js:198-214 | in a new Buffer that covers the slot, whether set succeeds depends on the value alone |
| Exports.Library.SetAs | lib/ref.js:174-181 | below 1 an error; at 1 success exactly when the type's setter takes the value and its slot can be written, then the slot and readback; above 1 the pointer stored and attached |
| Exports.Library.Set | lib/ref.js:165-181 | with the descriptor found as get finds it: an unknown type fails; at indirection 1 success exactly when that type's setter takes the value and its slot can be written, and the value reads back; above 1 the pointer is stored and attached |
| Exports.Library.Alloc | lib/ref.js:198-214 | a fresh Buffer at the next free address, sized by the type, tagged with it, zero-filled or holding the value; with a value at indirection 1 it succeeds exactly when there is room and the type's setter takes the value |
| Exports.Library.RefOf | lib/ref.js:312-316 | a fresh pointer-sized Buffer typed one level above, holding the Buffer's address and keeping it alive |
| Exports.Library.Deref | lib/ref.js:329-332 | get at offset 0 with the Buffer's own type |
| Exports.Library.Gather | lib/ref.js:272-283 | fails iff a byte inside the Buffer is not memory; otherwise the scratch Buffer holds the gathered bytes |
| Exports.Library.Scatter | lib/ref.js:284-295 | fails iff a byte inside the Buffer is not memory; otherwise only the window changed and holds the scratch bytes reversed |
| Exports.Library.ReadInt64Opposite | lib/ref.js:272-277 | over a whole window, the int64 its bytes denote in the opposite order |
| Exports.Library.ReadUInt64Opposite | lib/ref.js:278-283 | over a whole window, the uint64 its bytes denote in the opposite order |
| Exports.Library.WriteInt64Opposite | lib/ref.js:284-289 | refuses non-integers; over a whole window, the int64's opposite-order encoding |
| Exports.Library.WriteUInt64Opposite | lib/ref.js:290-295 | refuses non-integers; over a whole window, the uint64's opposite-order encoding |
| Exports.CStringReadback | lib/ref.js:659-664 | a pointer to a C string makes the CString getter read it up to its NUL |
| Exports.NullReadback | lib/ref.js:659-664 | a NULL pointer makes the CString getter read null |
| Index.Ref | index.js:11-15 | a fresh untyped pointer-sized Buffer holding the argument's address and keeping it alive; OutOfMemory or NotABuffer otherwise |
| Index.NullPointer | index.js:62 | a pointer-sized Buffer holding address 0 that keeps the empty NULL Buffer alive |
| Scenarios.RefDerefOneLayer | test/ref-deref.js:9-14 | deref(ref(test)) has test's address and length |
| Scenarios.RefDerefTwoLevels | test/ref-deref.js:16-28 | two levels of ref deref back to the intermediate Buffer and then to test |
| Scenarios.DerefUntyped | test/ref-deref.js:30-37 | dereferencing once more throws: the default type's getter fails |
| Scenarios.PointerRoundTrip | test/pointer.js:9-18 | writePointer then readPointer gives a view of test's address and length |
| Scenarios.Int64RoundTrip | test/int64.js:6-12 | writeInt64 then readInt64 gives the same integer, and the same Number within ±2^53 |
| Scenarios.OppositeInt64RoundTrip | lib/ref.js:272-289 | the opposite-order writer and reader agree on int64 |
| Scenarios.OppositeUInt64RoundTrip | lib/ref.js:278-295 | the opposite-order writer and reader agree on uint64 |
| Scenarios.CStringRoundTrip | test/string.js:19-22 | allocCString then readCString gives the string up to its first NUL, the whole string without one |
| Scenarios.CStringReadsBack | test/string.js:7-15 | a C string stored at a Buffer's start reads back up to its first NUL |

## Left out

- Floating point: `float` and `double` get and set answer `FloatingPoint`. The model has no IEEE 754 arithmetic.
- Garbage collection, weak handles and their callbacks: `_refs` is modelled as the set of reachability edges, and collection itself is not modelled.
- Concurrency: there is none in the library.
- Node's `new Buffer(size)` does not zero its memory. `Heap.Memory.Allocate` zero-fills, so reads of fresh memory are defined.
- String encodings: JavaScript strings are modelled as their byte sequences. The `encoding` argument of `allocCString`/`writeCString` and UTF-8 conversion are not modelled.
- Decimal.Strtoll: `errno` and the end pointer are not modelled; only the value is.
- The `Buffer.prototype` convenience methods: they forward to the exported functions modelled here.
- The deprecation warning of `Utf8String` and the `debug` output.
- The placeholder types (lib/ref.js:692-752): they are never reached by the operations modelled.
- The Node 0.10 handle-scope API of the addon.
- The crash or undefined behaviour of a read or write through memory that is not allocated: this is represented by the `Unmapped` error.
- Exports.Library.ReadInt64Opposite: the result is stated only for windows apart from the scratch Buffers. Overlap with the scratch Buffer is not modelled. The same holds for ReadUInt64Opposite, WriteInt64Opposite, WriteUInt64Opposite, Gather and Scatter.
- Exports.Library.AllocCString: a non-string is refused before anything is allocated, whereas Node would allocate first and then throw from `writeCString`. The difference is only in memory that becomes unreachable.
- Exports.Library.SetAs: the CString readback at indirection 1 is stated only when the pointer slot lies below the next free address. Otherwise the C string's own allocation could overlap the slot.
- Types.CoerceName: the exact lookup `exports.types[type]` (lib/ref.js:63-64) also finds names inherited from `Object.prototype`, such as "toString", "constructor" or "hasOwnProperty", and returns those objects as descriptors. The model's table holds only the library's own types, so those names fail here.
- Ref.SetInteger: an 8-bit setter given a string writes the string's first byte. The source writes `charCodeAt(0)`, a UTF-16 code unit, which agrees only for characters below 128, since strings are modelled by their bytes.
- Binding.Address: the address is returned as an exact integer. The source converts it to a double (src/binding.cc:53-54), which rounds addresses above 2^53.
- Int64.Int64Input: a Number is reduced modulo 2^64. V8's `IntegerValue` (src/binding.cc:331) saturates or is undefined for numbers outside the int64 range, and truncates fractions, which the model does not represent. The same holds for Int64.UInt64Input (src/binding.cc:408).
- Binding.WriteObject: refuses with OutOfMemory once the next handle number no longer fits the slot. src/binding.cc:169-190 has no such limit; the model needs one because a handle is stored as a number in the slot.
- Exports.Library.Alloc: success with a value at indirection 1 is stated for descriptors whose size covers the slot their setter writes, which every table type does. For other descriptors the outcome also depends on where the model's allocator places a C string.
- Heap.Memory.Allocate: the top address of the space is never handed out. This keeps `Buffer::Data(buf) + 0` equal to the Buffer's address without wrap-around.
- Scenarios.RefDerefTwoLevels: assumes pointers narrower than 2^32 bytes, so that the pointer-sized Buffer's length survives the uint32 conversion of `readPointer`'s size.
- test/int64.js:14-20 (INT64_MAX as a string) is not a separate scenario. It is covered by `Decimal.StrtollFormat` and `Int64.Int64ValueRoundTrip`.
- `coerceType` (lib/ref.js:74-87) removes every '*' in the name, wherever it stands, and counts them all. The model follows the code.
- index.js repeats `_attach` and the `writeObject`/`writePointer` wrappers of lib/ref.js with identical code. `Retention` models both copies.
- The tests for `sizeof`, the types table and `isNull` rely on the compiler's constants. The platform is a parameter here, and `Binding.Address` states the `isNull` relation.
