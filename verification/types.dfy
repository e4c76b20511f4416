/**
 * The type descriptor algebra of lib/ref.js: descriptors, `refType`/`derefType`, the builtin
 * table with its typedef aliases, and `coerceType`, which turns a type name such as
 * "unsigned int" style strings ("uint *", "pointer", "string") into a descriptor.
 *
 * A JavaScript descriptor is an object whose prototype chain ends at a builtin. `refType`
 * and `derefType` make a new object whose prototype is their argument and which overrides
 * only `indirection` (and `name`). The model keeps that chain: `Derived` is such an object,
 * `Base` one that defines every property itself.
 */
module Types {
  import opened Wrappers
  import opened Bytes
  import opened Native

  /** The widths of the fixed-width integer types. */
  datatype Width = W8 | W16 | W32 | W64 {
    function Octets(): (n: nat)
      ensures n in {1, 2, 4, 8}
    {
      match this
      case W8 => 1
      case W16 => 2
      case W32 => 4
      case W64 => 8
    }
  }

  /** The width with the given number of bytes, if there is one. */
  function WidthOf(n: nat): (w: Option<Width>)
    ensures w.Some? <==> n in {1, 2, 4, 8}
    ensures w.Some? ==> w.value.Octets() == n
  {
    if n == 1 then Some(W8)
    else if n == 2 then Some(W16)
    else if n == 4 then Some(W32)
    else if n == 8 then Some(W64)
    else None
  }

  /**
   * Which `get`/`set` pair a descriptor carries. `UnknownKind` is the pair of the default
   * descriptor `getType` invents for an untyped Buffer: both always throw.
   */
  datatype Kind =
    | VoidKind
    | IntKind(width: Width, signed: bool)
    | FloatKind
    | DoubleKind
    | ObjectKind
    | CStringKind
    | BoolKind(width: Width)
    | UnknownKind

  datatype TypeDesc =
    | Base(kind: Kind, size: nat, indirection: int, alignment: Option<nat>, name: Option<string>)
    | Derived(proto: TypeDesc, indirection: int, name: Option<string>)
  {
    /** `type.size`, found on the first object of the chain that defines it. */
    function Size(): nat {
      if Base? then size else proto.Size()
    }

    /** The `get`/`set` pair, found the same way. */
    function KindOf(): Kind {
      if Base? then kind else proto.KindOf()
    }

    /** `type.alignment`, found the same way (`None` where no object defines it). */
    function Alignment(): Option<nat> {
      if Base? then alignment else proto.Alignment()
    }
  }

  /** A name is set when it is a non-empty string (JavaScript's truthiness). */
  predicate Named(t: TypeDesc) {
    t.name.Some? && t.name.value != ""
  }

  /** How a type is given to the library: by name, or as a descriptor object. */
  datatype TypeSpec = Name(s: string) | Desc(t: TypeDesc)

  /** `refType` on a descriptor: one more level of indirection, the name gains a '*'. */
  function RefType(t: TypeDesc): (r: TypeDesc)
    ensures r.indirection == t.indirection + 1
    ensures r.Size() == t.Size() && r.KindOf() == t.KindOf() && r.Alignment() == t.Alignment()
    ensures Named(t) ==> r.name == Some(t.name.value + "*")
    ensures !Named(t) ==> r.name == t.name
  {
    Derived(t, t.indirection + 1, if Named(t) then Some(t.name.value + "*") else t.name)
  }

  /**
   * `derefType` on a descriptor: the prototype when that is exactly one level less
   * indirect, otherwise a new descriptor one level less indirect.
   */
  function DerefType(t: TypeDesc): (r: TypeDesc)
    ensures r.indirection == t.indirection - 1
    ensures r.Size() == t.Size() && r.KindOf() == t.KindOf() && r.Alignment() == t.Alignment()
  {
    if t.Derived? && t.proto.indirection == t.indirection - 1 then t.proto
    else Derived(t, t.indirection - 1, t.name)
  }

  /** `derefType` undoes `refType` exactly: it hands back the very descriptor it was given. */
  lemma DerefRefType(t: TypeDesc)
    ensures DerefType(RefType(t)) == t
  {
  }

  /** `refType` applied k times. */
  function RefN(t: TypeDesc, k: nat): (r: TypeDesc)
    ensures r.indirection == t.indirection + k
    ensures r.Size() == t.Size() && r.KindOf() == t.KindOf() && r.Alignment() == t.Alignment()
  {
    if k == 0 then t else RefType(RefN(t, k - 1))
  }

  // The builtin table.

  const VoidType: TypeDesc := Base(VoidKind, 0, 1, None, Some("void"))

  /** The name of the fixed-width integer type of width w: "int32", "uint8", ... */
  function FixedName(w: Width, signed: bool): (s: string)
    ensures s in AlignNames
  {
    match w
    case W8 => if signed then "int8" else "uint8"
    case W16 => if signed then "int16" else "uint16"
    case W32 => if signed then "int32" else "uint32"
    case W64 => if signed then "int64" else "uint64"
  }

  /** A builtin defined directly on the table: its size and alignment come from the platform. */
  function Builtin(p: Platform, key: string, kind: Kind): (t: TypeDesc)
    requires p.Valid() && key in AlignNames
    ensures t.Base? && t.indirection == 1 && t.name == Some(key) && t.KindOf() == kind
    ensures t.Size() == p.sizeOf[key] >= 1
    ensures t.Alignment() == Some(p.alignOf[key]) && p.alignOf[key] >= 1
  {
    Base(kind, p.sizeOf[key], 1, Some(p.alignOf[key]), Some(key))
  }

  function FixedType(p: Platform, w: Width, signed: bool): (t: TypeDesc)
    requires p.Valid()
    ensures t.Size() == w.Octets()
  {
    Builtin(p, FixedName(w, signed), IntKind(w, signed))
  }

  /** Whether the typedef loop makes the alias unsigned. */
  predicate UnsignedAlias(name: string) {
    name == "bool" || name == "byte" || name == "size_t" || (|name| > 0 && name[0] == 'u')
  }

  /**
   * The descriptor the typedef loop makes for a C type name: the fixed-width type of the
   * same width and signedness, with its own alignment where `alignof` has one, its own
   * name, and, for `bool`, the boolean `get`/`set` wrapper.
   */
  function Alias(p: Platform, name: string): (t: TypeDesc)
    requires p.Valid() && name in TypedefNames
    ensures t.Base? && t.indirection == 1 && t.name == Some(name)
    ensures t.Size() == p.sizeOf[name] >= 1
    ensures t.Alignment().Some? && t.Alignment().value >= 1
    ensures name != "bool" ==> t.KindOf() == IntKind(WidthOf(p.sizeOf[name]).value, !UnsignedAlias(name))
    ensures name == "bool" ==> t.KindOf() == BoolKind(WidthOf(p.sizeOf[name]).value)
  {
    var w := WidthOf(p.sizeOf[name]).value;
    var signed := !UnsignedAlias(name);
    var fixed := FixedType(p, w, signed);
    var align := if name in p.alignOf then p.alignOf[name] else p.alignOf[FixedName(w, signed)];
    var kind := if name == "bool" then BoolKind(w) else IntKind(w, signed);
    fixed.(kind := kind, alignment := Some(align), name := Some(name))
  }

  /** `types.CString`: pointer-sized, pointer-aligned. */
  function CStringType(p: Platform): (t: TypeDesc)
    requires p.Valid()
    ensures t.Base? && t.indirection == 1 && t.name == Some("CString") && t.KindOf() == CStringKind
    ensures t.Size() == p.PointerSize() && t.Alignment() == Some(p.alignOf["pointer"])
  {
    Base(CStringKind, p.sizeOf["pointer"], 1, Some(p.alignOf["pointer"]), Some("CString"))
  }

  /** The names `exports.types` answers. "Utf8String" is the deprecated getter. */
  const TableNames: set<string> := {
    "void", "int8", "uint8", "int16", "uint16", "int32", "uint32", "int64", "uint64",
    "float", "double", "Object", "CString", "Utf8String"
  } + TypedefNames

  /** The entry of `exports.types` under a name, once the library has loaded. */
  function Entry(p: Platform, key: string): (t: TypeDesc)
    requires p.Valid() && key in TableNames
    ensures t.indirection == 1
    ensures key == "void" ==> t.Size() == 0 && t.Alignment() == None
    ensures key != "void" ==> t.Size() >= 1 && t.Alignment().Some? && t.Alignment().value >= 1
    ensures t.name == Some(if key == "Utf8String" then "CString" else key)
    ensures key in TypedefNames ==> t == Alias(p, key)
  {
    if key in TypedefNames then Alias(p, key)
    else if key == "void" then VoidType
    else if key == "int8" then Builtin(p, key, IntKind(W8, true))
    else if key == "uint8" then Builtin(p, key, IntKind(W8, false))
    else if key == "int16" then Builtin(p, key, IntKind(W16, true))
    else if key == "uint16" then Builtin(p, key, IntKind(W16, false))
    else if key == "int32" then Builtin(p, key, IntKind(W32, true))
    else if key == "uint32" then Builtin(p, key, IntKind(W32, false))
    else if key == "int64" then Builtin(p, key, IntKind(W64, true))
    else if key == "uint64" then Builtin(p, key, IntKind(W64, false))
    else if key == "float" then Builtin(p, key, FloatKind)
    else if key == "double" then Builtin(p, key, DoubleKind)
    else if key == "Object" then Builtin(p, key, ObjectKind)
    else
      CStringNames(key);
      CStringType(p)
  }

  /** The names of the table that are neither a typedef nor a numeric, void or Object type. */
  lemma CStringNames(key: string)
    requires key in TableNames && key !in TypedefNames
    requires key !in {"void", "int8", "uint8", "int16", "uint16", "int32", "uint32", "int64", "uint64"}
    requires key !in {"float", "double", "Object"}
    ensures key == "CString" || key == "Utf8String"
  {
  }

  /** `exports.types` once the library has loaded. */
  function Table(p: Platform): (m: map<string, TypeDesc>)
    requires p.Valid()
    ensures m.Keys == TableNames
  {
    map key | key in TableNames :: Entry(p, key)
  }

  /** The type `allocCString` tags its result with: `char *`. */
  function CharPtrType(p: Platform): (t: TypeDesc)
    requires p.Valid()
    ensures t.indirection == 2 && t.name == Some("char*")
    ensures t.Size() == p.sizeOf["char"] && t.KindOf().IntKind?
  {
    var c := Alias(p, "char");
    assert c.name.value + "*" == "char*";
    RefType(c)
  }

  /** The descriptor `getType` gives a Buffer with no type: its size is the Buffer's length. */
  function DefaultType(length: nat): (t: TypeDesc)
    ensures t.indirection == 1 && t.Size() == length && t.KindOf() == UnknownKind
  {
    Base(UnknownKind, length, 1, None, None)
  }

  /**
   * Every builtin has indirection 1; every builtin except `void` has a size and an
   * alignment of at least one byte; `void` has size 0; and each entry is named after its
   * key, except the deprecated alias, which answers `CString`.
   */
  lemma {:induction false} BuiltinFacts(p: Platform, key: string)
    requires p.Valid() && key in Table(p)
    ensures Table(p)[key].indirection == 1
    ensures key == "void" ==> Table(p)[key].Size() == 0 && Table(p)[key].Alignment() == None
    ensures key != "void" ==> Table(p)[key].Size() >= 1
    ensures key != "void" ==> Table(p)[key].Alignment().Some? && Table(p)[key].Alignment().value >= 1
    ensures Table(p)[key].name == Some(if key == "Utf8String" then "CString" else key)
  {
  }

  /**
   * A typedef'd C type has the platform's size for that name, and is a signed integer
   * exactly when its name is not `bool`, `byte`, `size_t` or a name starting with 'u'.
   */
  lemma TypedefFacts(p: Platform, name: string)
    requires p.Valid() && name in TypedefNames
    ensures name in Table(p)
    ensures Table(p)[name].Size() == p.sizeOf[name]
    ensures name != "bool" ==> Table(p)[name].KindOf().IntKind?
    ensures name != "bool" ==> (Table(p)[name].KindOf().signed <==> !UnsignedAlias(name))
  {
  }

  // coerceType.

  /** JavaScript's `\s`: the white space and line terminator characters. */
  predicate IsJsSpace(c: char) {
    c == '\t' || c == '\n' || c == '\U{000B}' || c == '\U{000C}' || c == '\r' || c == ' '
    || c == '\U{00A0}' || c == '\U{1680}' || ('\U{2000}' <= c <= '\U{200A}')
    || c == '\U{2028}' || c == '\U{2029}' || c == '\U{202F}' || c == '\U{205F}'
    || c == '\U{3000}' || c == '\U{FEFF}'
  }

  /** `s.replace(/\s+/g, '')`. */
  function RemoveSpaces(s: string): (r: string)
    ensures forall i :: 0 <= i < |r| ==> !IsJsSpace(r[i])
  {
    if s == [] then []
    else if IsJsSpace(s[0]) then RemoveSpaces(s[1..])
    else [s[0]] + RemoveSpaces(s[1..])
  }

  /**
   * `toLowerCase()` on one character, for the ASCII letters. Every table name is ASCII
   * and contains no 'k', so the characters whose full Unicode lower case is ASCII (the
   * Kelvin sign, whose lower case is 'k') cannot make a name match; the other characters
   * are left as they are.
   */
  function LowerChar(c: char): char {
    if 'A' <= c <= 'Z' then (c as int + 32) as char else c
  }

  function Lower(s: string): (r: string)
    ensures |r| == |s| && forall i :: 0 <= i < |s| ==> r[i] == LowerChar(s[i])
  {
    if s == [] then [] else [LowerChar(s[0])] + Lower(s[1..])
  }

  /** The name with its white space removed, in lower case. */
  function Canonical(s: string): string {
    Lower(RemoveSpaces(s))
  }

  /** The number of '*' characters. */
  function CountStars(s: string): nat {
    if s == [] then 0 else (if s[0] == '*' then 1 else 0) + CountStars(s[1..])
  }

  /** The name with every '*' removed (`replace(/\*\/g, '')`), wherever it stands. */
  function RemoveStars(s: string): (r: string)
    ensures '*' !in r
  {
    if s == [] then [] else (if s[0] == '*' then [] else [s[0]]) + RemoveStars(s[1..])
  }

  /**
   * Whether a canonical name denotes a type: `pointer`, `string`, or a table name once its
   * '*'s are removed.
   */
  predicate KnownCanonical(c: string) {
    c == "pointer" || c == "string" || RemoveStars(c) in TableNames
  }

  /**
   * `coerceType`: a descriptor is returned unchanged; a name is looked up as it is, and
   * otherwise in canonical form.
   */
  function Coerce(p: Platform, spec: TypeSpec): (r: Result<TypeDesc>)
    requires p.Valid()
    ensures spec.Desc? ==> r == Success(spec.t)
    ensures r.Failure? <==> spec.Name? && spec.s !in TableNames && !KnownCanonical(Canonical(spec.s))
    ensures spec.Name? && spec.s in TableNames ==> r == Success(Entry(p, spec.s))
    ensures r.Failure? ==> spec.Name? && r.error == InvalidTypeSpecifier
    ensures spec.Name? && r.Success? ==> r.value.indirection >= 1
  {
    match spec
    case Desc(t) => Success(t)
    case Name(s) => CoerceName(p, s)
  }

  /** A type name: an exact table name first, then the canonical form of the name. */
  function CoerceName(p: Platform, s: string): (r: Result<TypeDesc>)
    requires p.Valid()
    ensures s in TableNames ==> r == Success(Entry(p, s))
    ensures r.Failure? <==> s !in TableNames && !KnownCanonical(Canonical(s))
    ensures r.Failure? ==> r.error == InvalidTypeSpecifier
    ensures r.Success? ==> r.value.indirection >= 1
  {
    if s in TableNames then Success(Entry(p, s)) else CoerceCanonical(p, Canonical(s))
  }

  /**
   * A canonical name: "pointer" means `void *` and "string" means `CString`; otherwise
   * every '*' is removed and counted, and the remaining name gains that many levels.
   */
  function CoerceCanonical(p: Platform, c: string): (r: Result<TypeDesc>)
    requires p.Valid()
    ensures r.Failure? <==> !KnownCanonical(c)
    ensures r.Failure? ==> r.error == InvalidTypeSpecifier
    ensures r.Success? ==> r.value.indirection >= 1
  {
    if c == "pointer" then Success(RefType(VoidType))
    else if c == "string" then Success(CStringType(p))
    else
      var base := RemoveStars(c);
      if base in TableNames then Success(RefN(Entry(p, base), CountStars(c)))
      else Failure(InvalidTypeSpecifier)
  }

  /** `refType` on a name or a descriptor: coerce, then add a level. */
  function RefTypeOf(p: Platform, spec: TypeSpec): (r: Result<TypeDesc>)
    requires p.Valid()
    ensures r.Success? <==> Coerce(p, spec).Success?
    ensures r.Success? ==> r.value.indirection == Coerce(p, spec).value.indirection + 1
    ensures r.Success? ==> r.value.Size() == Coerce(p, spec).value.Size()
  {
    var t :- Coerce(p, spec);
    Success(RefType(t))
  }

  /** `derefType` on a name or a descriptor: coerce, then remove a level. */
  function DerefTypeOf(p: Platform, spec: TypeSpec): (r: Result<TypeDesc>)
    requires p.Valid()
    ensures r.Success? <==> Coerce(p, spec).Success?
    ensures r.Success? ==> r.value.indirection == Coerce(p, spec).value.indirection - 1
    ensures r.Success? ==> r.value.Size() == Coerce(p, spec).value.Size()
  {
    var t :- Coerce(p, spec);
    Success(DerefType(t))
  }

  // Facts about coerceType.

  /** A name made of lower-case ASCII letters, digits and '_', as most table names are. */
  predicate PlainName(s: string) {
    forall i :: 0 <= i < |s| ==> ('a' <= s[i] <= 'z') || ('0' <= s[i] <= '9') || s[i] == '_'
  }

  /** A run of k stars. */
  function Stars(k: nat): (s: string)
    ensures |s| == k && forall i :: 0 <= i < k ==> s[i] == '*'
  {
    if k == 0 then [] else Stars(k - 1) + ['*']
  }

  predicate AllSpaces(s: string) {
    forall i :: 0 <= i < |s| ==> IsJsSpace(s[i])
  }

  lemma {:induction false} RemoveSpacesAppend(a: string, b: string)
    ensures RemoveSpaces(a + b) == RemoveSpaces(a) + RemoveSpaces(b)
  {
    if a == [] {
      assert a + b == b;
    } else {
      assert (a + b)[0] == a[0] && (a + b)[1..] == a[1..] + b;
      RemoveSpacesAppend(a[1..], b);
      if IsJsSpace(a[0]) {
        assert RemoveSpaces(a) == RemoveSpaces(a[1..]);
      } else {
        assert RemoveSpaces(a) == [a[0]] + RemoveSpaces(a[1..]);
        assert RemoveSpaces(a + b) == [a[0]] + RemoveSpaces(a[1..] + b);
      }
    }
  }

  lemma {:induction false} RemoveSpacesNone(s: string)
    requires forall i :: 0 <= i < |s| ==> !IsJsSpace(s[i])
    ensures RemoveSpaces(s) == s
  {
    if s != [] {
      RemoveSpacesNone(s[1..]);
    }
  }

  lemma {:induction false} RemoveSpacesAll(s: string)
    requires AllSpaces(s)
    ensures RemoveSpaces(s) == []
  {
    if s != [] {
      RemoveSpacesAll(s[1..]);
    }
  }

  lemma {:induction false} RemoveStarsAppend(a: string, b: string)
    ensures RemoveStars(a + b) == RemoveStars(a) + RemoveStars(b)
    ensures CountStars(a + b) == CountStars(a) + CountStars(b)
  {
    if a == [] {
      assert a + b == b;
    } else {
      assert (a + b)[0] == a[0] && (a + b)[1..] == a[1..] + b;
      RemoveStarsAppend(a[1..], b);
      var head := if a[0] == '*' then [] else [a[0]];
      assert RemoveStars(a) == head + RemoveStars(a[1..]);
      assert RemoveStars(a + b) == head + RemoveStars(a[1..] + b);
    }
  }

  lemma {:induction false} StarsOnly(k: nat)
    ensures RemoveStars(Stars(k)) == [] && CountStars(Stars(k)) == k
  {
    if k > 0 {
      RemoveStarsAppend(Stars(k - 1), ['*']);
      StarsOnly(k - 1);
    }
  }

  lemma {:induction false} NoStars(s: string)
    requires '*' !in s
    ensures RemoveStars(s) == s && CountStars(s) == 0
  {
    if s != [] {
      assert s[0] != '*';
      NoStars(s[1..]);
    }
  }

  /** Lower case leaves a name without upper-case ASCII letters as it is. */
  lemma LowerNoUpper(s: string)
    requires forall i :: 0 <= i < |s| ==> !('A' <= s[i] <= 'Z')
    ensures Lower(s) == s
  {
  }

  /** A plain name is its own canonical form. */
  lemma CanonicalPlain(s: string)
    requires PlainName(s)
    ensures Canonical(s) == s
  {
    RemoveSpacesNone(s);
    LowerNoUpper(s);
  }

  /** The canonical form of a plain name, padding and stars, and what `coerceType` counts in it. */
  lemma CanonicalStarred(b: string, pad: string, k: nat)
    requires PlainName(b) && AllSpaces(pad)
    ensures Canonical(b + pad + Stars(k)) == b + Stars(k)
    ensures RemoveStars(b + Stars(k)) == b && CountStars(b + Stars(k)) == k
  {
    SpacesDropped(b, pad, k);
    StarredNoUpper(b, k);
    StarsCounted(b, k);
  }

  /** White space between a plain name and its stars disappears. */
  lemma SpacesDropped(b: string, pad: string, k: nat)
    requires PlainName(b) && AllSpaces(pad)
    ensures RemoveSpaces(b + pad + Stars(k)) == b + Stars(k)
  {
    RemoveSpacesAppend(b + pad, Stars(k));
    RemoveSpacesAppend(b, pad);
    RemoveSpacesNone(b);
    RemoveSpacesAll(pad);
    RemoveSpacesNone(Stars(k));
    assert b + [] == b;
  }

  /** A plain name followed by stars is already in lower case. */
  lemma StarredNoUpper(b: string, k: nat)
    requires PlainName(b)
    ensures Lower(b + Stars(k)) == b + Stars(k)
  {
    var c := b + Stars(k);
    forall i | 0 <= i < |c|
      ensures !('A' <= c[i] <= 'Z')
    {
      if i < |b| {
        assert c[i] == b[i];
      } else {
        assert c[i] == Stars(k)[i - |b|];
      }
    }
    LowerNoUpper(c);
  }

  /** `coerceType` strips exactly the k stars from a plain name and counts them. */
  lemma StarsCounted(b: string, k: nat)
    requires PlainName(b)
    ensures RemoveStars(b + Stars(k)) == b && CountStars(b + Stars(k)) == k
  {
    RemoveStarsAppend(b, Stars(k));
    assert '*' !in b by {
      assert forall i :: 0 <= i < |b| ==> b[i] != '*';
    }
    NoStars(b);
    StarsOnly(k);
    assert b + [] == b;
  }

  /** A name that is not a table name is resolved through its canonical form. */
  lemma CoerceNameCanonical(p: Platform, s: string)
    requires p.Valid() && s !in TableNames
    ensures Coerce(p, Name(s)) == CoerceCanonical(p, Canonical(s))
  {
  }

  /**
   * What the test suite does with "void *": a plain table name followed by white space and
   * k stars denotes that builtin with k more levels of indirection.
   */
  lemma CoerceStarredName(p: Platform, b: string, pad: string, k: nat)
    requires p.Valid() && b in TableNames && PlainName(b) && AllSpaces(pad)
    ensures Coerce(p, Name(b + pad + Stars(k))) == Success(RefN(Entry(p, b), k))
    ensures Coerce(p, Name(b + pad + Stars(k))).value.indirection == 1 + k
  {
    if pad == [] && k == 0 {
      assert b + pad + Stars(k) == b;
    } else {
      CoerceStarredCanonical(p, b, pad, k);
    }
  }

  /**
   * The other side of the lookup: a plain name that is not in the table, followed by white
   * space and stars, denotes no type, and `coerceType` throws.
   */
  lemma {:induction false} CoerceUnknownStarred(p: Platform, b: string, pad: string, k: nat)
    requires p.Valid() && b !in TableNames && PlainName(b) && AllSpaces(pad)
    requires b != "pointer" && b != "string"
    ensures Coerce(p, Name(b + pad + Stars(k))) == Failure(InvalidTypeSpecifier)
  {
    var s := b + pad + Stars(k);
    StarredTableName(b, pad, k);
    assert k == 0 && pad == [] ==> s == b;
    CanonicalStarred(b, pad, k);
    if k > 0 {
      assert (b + Stars(k))[|b + Stars(k)| - 1] == '*';
    } else {
      assert b + Stars(k) == b;
    }
  }

  /** The starred name that is not a table name goes through its canonical form. */
  lemma CoerceStarredCanonical(p: Platform, b: string, pad: string, k: nat)
    requires p.Valid() && b in TableNames && PlainName(b) && AllSpaces(pad)
    requires pad != [] || k > 0
    ensures Coerce(p, Name(b + pad + Stars(k))) == Success(RefN(Entry(p, b), k))
  {
    StarredTableName(b, pad, k);
    CanonicalStarred(b, pad, k);
    CoerceNameCanonical(p, b + pad + Stars(k));
    StarredCanonical(p, b, k);
  }

  /** The only table name of the shape b + pad + stars is b itself. */
  lemma StarredTableName(b: string, pad: string, k: nat)
    requires PlainName(b) && AllSpaces(pad)
    ensures b + pad + Stars(k) in TableNames ==> k == 0 && pad == []
  {
    var s := b + pad + Stars(k);
    TableNamesAreWords(s);
    assert k > 0 ==> !NameChar(s[|s| - 1]);
    assert pad != [] ==> !NameChar(s[|b|]);
  }

  /** A table name with k stars, in canonical form, gains k levels. */
  lemma StarredCanonical(p: Platform, b: string, k: nat)
    requires p.Valid() && b in TableNames && PlainName(b)
    ensures CoerceCanonical(p, b + Stars(k)) == Success(RefN(Entry(p, b), k))
  {
    var c := b + Stars(k);
    CanonicalStarred(b, [], k);
    NotTableNames();
    assert c != "pointer" && c != "string" by {
      if k == 0 {
        assert c == b;
      } else {
        assert c[|c| - 1] == '*';
      }
    }
  }

  predicate NameChar(c: char) {
    ('a' <= c <= 'z') || ('A' <= c <= 'Z') || ('0' <= c <= '9') || c == '_'
  }

  /** Every table name is made of letters, digits and '_': no white space, no '*'. */
  lemma TableNamesAreWords(s: string)
    ensures s in TableNames ==> forall i :: 0 <= i < |s| ==> NameChar(s[i])
  {
  }

  /** The two legacy names are not table names, so they reach the canonical branch. */
  lemma NotTableNames()
    ensures "pointer" !in TableNames && "string" !in TableNames
  {
  }

  /** The two legacy names are plain names. */
  lemma LegacyPlain()
    ensures PlainName("pointer") && PlainName("string")
  {
  }

  /** The legacy name "pointer" is `void *`. */
  lemma CoercePointer(p: Platform)
    requires p.Valid()
    ensures Coerce(p, Name("pointer")) == Success(RefType(VoidType))
    ensures Coerce(p, Name("pointer")).value.indirection == 2
    ensures Coerce(p, Name("pointer")).value.Size() == 0
  {
    LegacyPlain();
    NotTableNames();
    CoerceLegacyName(p, "pointer");
  }

  /** The name "string" is `CString`. */
  lemma CoerceString(p: Platform)
    requires p.Valid()
    ensures Coerce(p, Name("string")) == Success(CStringType(p))
  {
    LegacyPlain();
    NotTableNames();
    CoerceLegacyName(p, "string");
  }

  /** A plain name that is not a table name is its own canonical form. */
  lemma CoerceLegacyName(p: Platform, s: string)
    requires p.Valid() && s !in TableNames && PlainName(s)
    ensures Coerce(p, Name(s)) == CoerceCanonical(p, s)
  {
    CoerceNameCanonical(p, s);
    CanonicalPlain(s);
  }
}
