/**
 * Base-10 text for 64-bit integers, as the addon produces it with snprintf("%lld"/"%llu")
 * and parses it with strtoll/strtoull (base 10). Text is the byte sequence of the string.
 */
module Decimal {
  import opened Bytes

  const MINUS: byte := 0x2D
  const PLUS: byte := 0x2B

  const INT64_MIN: int := -0x8000_0000_0000_0000
  const INT64_MAX: int := 0x7FFF_FFFF_FFFF_FFFF
  const UINT64_MAX: int := 0xFFFF_FFFF_FFFF_FFFF

  predicate IsDigit(b: byte) {
    0x30 <= b <= 0x39
  }

  /** isspace() in the "C" locale: space, \t, \n, \v, \f and \r. */
  predicate IsSpace(b: byte) {
    b == 0x20 || 0x09 <= b <= 0x0D
  }

  predicate AllDigits(s: seq<byte>) {
    forall i :: 0 <= i < |s| ==> IsDigit(s[i])
  }

  function ValueOfDigit(b: byte): (d: nat)
    requires IsDigit(b)
    ensures d < 10
  {
    (b - 0x30) as nat
  }

  function DigitOf(d: nat): (b: byte)
    requires d < 10
    ensures IsDigit(b) && ValueOfDigit(b) == d
  {
    (d + 0x30) as byte
  }

  /** The decimal digits of n, most significant first, with no leading zero. */
  function Digits(n: nat): (s: seq<byte>)
    ensures |s| >= 1 && AllDigits(s)
    ensures n >= 10 ==> s[0] != 0x30
  {
    if n < 10 then [DigitOf(n)] else Digits(n / 10) + [DigitOf(n % 10)]
  }

  /** What snprintf prints for "%" PRId64 / "%" PRIu64: an optional '-', then the digits. */
  function Format(v: int): (s: seq<byte>)
    ensures |s| >= 1 && (s[0] == MINUS || IsDigit(s[0]))
    ensures s[0] == MINUS <==> v < 0
  {
    if v < 0 then [MINUS] + Digits(-v) else Digits(v)
  }

  /** The number a run of decimal digits denotes. */
  function ValueOf(ds: seq<byte>): nat
    requires AllDigits(ds)
  {
    if ds == [] then 0 else 10 * ValueOf(ds[..|ds| - 1]) + ValueOfDigit(ds[|ds| - 1])
  }

  lemma {:induction false} ValueOfDigits(n: nat)
    ensures ValueOf(Digits(n)) == n
  {
    if n >= 10 {
      var ds := Digits(n);
      assert ds[..|ds| - 1] == Digits(n / 10);
      ValueOfDigits(n / 10);
    }
  }

  /** The length of the longest run of digits at the front of s. */
  function DigitRun(s: seq<byte>): (k: nat)
    ensures k <= |s| && AllDigits(s[..k])
    ensures k < |s| ==> !IsDigit(s[k])
  {
    if s == [] || !IsDigit(s[0]) then 0
    else
      var k := 1 + DigitRun(s[1..]);
      assert s[..k] == [s[0]] + s[1..][..k - 1];
      k
  }

  lemma {:induction false} DigitRunOfDigits(s: seq<byte>)
    requires AllDigits(s)
    ensures DigitRun(s) == |s|
  {
    if s != [] {
      DigitRunOfDigits(s[1..]);
    }
  }

  /** s without its leading white space. */
  function SkipSpaces(s: seq<byte>): (t: seq<byte>)
    ensures |t| <= |s| && t == s[|s| - |t|..]
    ensures t != [] ==> !IsSpace(t[0])
  {
    if s != [] && IsSpace(s[0]) then SkipSpaces(s[1..]) else s
  }

  /** The sign and the magnitude strtoll and strtoull both read off the front of a string. */
  datatype Scanned = Scanned(negative: bool, magnitude: nat)

  /**
   * Leading white space, an optional '+' or '-', then the longest run of digits; an empty
   * run reads as 0 and whatever follows the run is ignored.
   */
  function Scan(s: seq<byte>): Scanned {
    var t := SkipSpaces(s);
    var signed := t != [] && (t[0] == MINUS || t[0] == PLUS);
    var u := if signed then t[1..] else t;
    Scanned(t != [] && t[0] == MINUS, ValueOf(u[..DigitRun(u)]))
  }

  /** strtoll(s, NULL, 10): the signed value, clamped to the int64 range when it overflows. */
  function Strtoll(s: seq<byte>): (v: int)
    ensures INT64_MIN <= v <= INT64_MAX
  {
    var sc := Scan(s);
    var v := if sc.negative then 0 - (sc.magnitude as int) else sc.magnitude as int;
    if v > INT64_MAX then INT64_MAX else if v < INT64_MIN then INT64_MIN else v
  }

  /**
   * strtoull(s, NULL, 10): a magnitude beyond the uint64 range reads as UINT64_MAX; otherwise
   * a leading '-' negates the magnitude modulo 2^64.
   */
  function Strtoull(s: seq<byte>): (v: nat)
    ensures v <= UINT64_MAX
  {
    var sc := Scan(s);
    if sc.magnitude > UINT64_MAX then UINT64_MAX
    else if sc.negative then (TWO_64 - sc.magnitude) % TWO_64
    else sc.magnitude
  }

  lemma ScanFormat(v: int)
    ensures Scan(Format(v)) == Scanned(v < 0, if v < 0 then -v else v)
  {
    var s := Format(v);
    assert SkipSpaces(s) == s;
    var ds := if v < 0 then Digits(-v) else Digits(v);
    assert (if v < 0 then s[1..] else s) == ds;
    DigitRunOfDigits(ds);
    assert ds[..|ds|] == ds;
    ValueOfDigits(if v < 0 then -v else v);
  }

  /** strtoll reads back exactly what snprintf("%lld") printed. */
  lemma StrtollFormat(v: int)
    requires INT64_MIN <= v <= INT64_MAX
    ensures Strtoll(Format(v)) == v
  {
    ScanFormat(v);
  }

  /** strtoull reads back exactly what snprintf("%llu") printed. */
  lemma StrtoullFormat(v: int)
    requires 0 <= v <= UINT64_MAX
    ensures Strtoull(Format(v)) == v
  {
    ScanFormat(v);
  }
}
