/**
 * The byte loop shared by the four opposite-endian functions of lib/ref.js: round i copies
 * `src[s + 8 - i - 1]` into `dst[d + i]`, through plain Buffer indexing. The readers copy
 * from the caller's Buffer into a scratch Buffer, the writers from the scratch Buffer into
 * the caller's.
 */
module Reversal {
  import opened Wrappers
  import opened Bytes
  import opened Heap
  import opened NodeBuffer

  /** How many bytes the loop reverses: `sizeof.int64`, which is `sizeof.uint64`. */
  const WIDTH: nat := 8

  /** The eight bytes at offset lie inside the Buffer and are memory. */
  predicate Whole(bytes: map<int, byte>, buf: Region, offset: int) {
    InBounds(buf, offset, WIDTH) && Mapped(bytes, buf.address + offset, WIDTH)
  }

  /** The n bytes at a and the n bytes at b do not overlap. */
  predicate Apart(a: int, b: int, n: nat) {
    a + n <= b || b + n <= a
  }

  /**
   * Index off + j of buf lies outside the Buffer (where a read gives 0 and a write is
   * ignored) or is memory.
   */
  predicate Reachable(bytes: map<int, byte>, buf: Region, off: int, j: int) {
    !(0 <= off + j < buf.length) || buf.address + off + j in bytes
  }

  /** Every index of the eight at off is outside the Buffer or memory: no round can fault. */
  predicate Touchable(bytes: map<int, byte>, buf: Region, off: int) {
    forall j :: 0 <= j < WIDTH ==> Reachable(bytes, buf, off, j)
  }

  /** The byte round j reads, `src[s + 8 - j - 1]`: 0 when that index lies outside src. */
  function SourceByte(bytes: map<int, byte>, src: Region, s: int, j: int): byte {
    var a := src.address + s + WIDTH - 1 - j;
    if 0 <= s + WIDTH - 1 - j < src.length && a in bytes then bytes[a] else 0
  }

  /** Address k is one of the first i destination bytes, `dst[d + j]` with j < i, and inside dst. */
  predicate Written(dst: Region, d: int, i: nat, k: int) {
    dst.address + d <= k < dst.address + d + i && 0 <= k - dst.address < dst.length
  }

  /**
   * The memory after the first i rounds between two windows that do not overlap: each
   * destination byte written so far holds the byte its round read, and nothing else changed.
   */
  predicate Copied(before: map<int, byte>, after: map<int, byte>, src: Region, s: int, dst: Region, d: int, i: nat) {
    after.Keys == before.Keys
    && (forall k {:trigger after[k]} :: k in before && !Written(dst, d, i, k) ==> after[k] == before[k])
    && (forall k {:trigger after[k]} :: k in before && Written(dst, d, i, k) ==>
          after[k] == SourceByte(before, src, s, k - dst.address - d))
  }

  lemma CopiedAt(before: map<int, byte>, after: map<int, byte>, src: Region, s: int, dst: Region, d: int, i: nat, k: int)
    requires Copied(before, after, src, s, dst, d, i) && k in before
    ensures !Written(dst, d, i, k) ==> after[k] == before[k]
    ensures Written(dst, d, i, k) ==> after[k] == SourceByte(before, src, s, k - dst.address - d)
  {
  }

  /**
   * Round i between non-overlapping windows: the byte it reads is the one the source held
   * before the loop, and the byte it writes extends the rounds done so far by one.
   */
  lemma RoundStep(before: map<int, byte>, b: map<int, byte>, src: Region, s: int, dst: Region, d: int, i: nat)
    requires i < WIDTH
    requires Apart(src.address + s, dst.address + d, WIDTH)
    requires Copied(before, b, src, s, dst, d, i)
    requires IndexGet(b, src, s + WIDTH - 1 - i).Success?
    ensures IndexGet(b, src, s + WIDTH - 1 - i).value == SourceByte(before, src, s, i)
    ensures IndexSet(b, dst, d + i, SourceByte(before, src, s, i)).Success? ==>
      Copied(before, IndexSet(b, dst, d + i, SourceByte(before, src, s, i)).value, src, s, dst, d, i + 1)
  {
    var a := src.address + s + WIDTH - 1 - i;
    if 0 <= s + WIDTH - 1 - i < src.length {
      CopiedAt(before, b, src, s, dst, d, i, a);
    }
    var x := SourceByte(before, src, s, i);
    var r := IndexSet(b, dst, d + i, x);
    if r.Success? {
      forall k | k in before
        ensures !Written(dst, d, i + 1, k) ==> r.value[k] == before[k]
        ensures Written(dst, d, i + 1, k) ==> r.value[k] == SourceByte(before, src, s, k - dst.address - d)
      {
        CopiedAt(before, b, src, s, dst, d, i, k);
      }
    }
  }

  /** Byte j of the destination after eight rounds is byte 7 - j of the source. */
  lemma ReversedByte(before: map<int, byte>, after: map<int, byte>, src: Region, s: int, dst: Region, d: int, j: int)
    requires Whole(before, src, s) && Whole(before, dst, d)
    requires Copied(before, after, src, s, dst, d, WIDTH)
    requires 0 <= j < WIDTH
    ensures Mapped(after, dst.address + d, WIDTH)
    ensures Load(after, dst.address + d, WIDTH)[j] == Reverse(Load(before, src.address + s, WIDTH))[j]
  {
    CopiedAt(before, after, src, s, dst, d, WIDTH, dst.address + d + j);
  }

  /**
   * Between two whole, non-overlapping windows the eight rounds leave the source's bytes,
   * reversed, in the destination.
   */
  lemma CopiedReverses(before: map<int, byte>, after: map<int, byte>, src: Region, s: int, dst: Region, d: int)
    requires Whole(before, src, s) && Whole(before, dst, d)
    requires Copied(before, after, src, s, dst, d, WIDTH)
    ensures Mapped(after, dst.address + d, WIDTH)
    ensures Load(after, dst.address + d, WIDTH) == Reverse(Load(before, src.address + s, WIDTH))
  {
    var S, D := src.address + s, dst.address + d;
    forall j | 0 <= j < WIDTH
      ensures Load(after, D, WIDTH)[j] == Reverse(Load(before, S, WIDTH))[j]
    {
      ReversedByte(before, after, src, s, dst, d, j);
    }
  }

  /** The eight bytes the rounds read, in the order they write them. */
  function Gathered(bytes: map<int, byte>, src: Region, s: int): (g: seq<byte>)
    ensures |g| == WIDTH && forall j :: 0 <= j < WIDTH ==> g[j] == SourceByte(bytes, src, s, j)
  {
    seq(WIDTH, j => SourceByte(bytes, src, s, j))
  }

  /**
   * Into a whole destination the eight rounds leave exactly the gathered bytes, whether or
   * not the source window lies inside its Buffer.
   */
  lemma CopiedGathers(before: map<int, byte>, after: map<int, byte>, src: Region, s: int, dst: Region, d: int)
    requires Whole(before, dst, d)
    requires Copied(before, after, src, s, dst, d, WIDTH)
    ensures Mapped(after, dst.address + d, WIDTH)
    ensures Load(after, dst.address + d, WIDTH) == Gathered(before, src, s)
  {
    var D := dst.address + d;
    forall j | 0 <= j < WIDTH
      ensures D + j in after && after[D + j] == Gathered(before, src, s)[j]
    {
      CopiedAt(before, after, src, s, dst, d, WIDTH, D + j);
    }
  }

  /** From a whole source the gathered bytes are the source's bytes reversed. */
  lemma GatheredWhole(bytes: map<int, byte>, src: Region, s: int)
    requires Whole(bytes, src, s)
    ensures Gathered(bytes, src, s) == Reverse(Load(bytes, src.address + s, WIDTH))
  {
  }

  /** After the eight rounds only the destination window differs. */
  lemma CopiedOnlyAt(before: map<int, byte>, after: map<int, byte>, src: Region, s: int, dst: Region, d: int)
    requires Copied(before, after, src, s, dst, d, WIDTH)
    ensures OnlyAt(before, after, dst.address + d, WIDTH)
  {
    forall k | k in before && !(dst.address + d <= k < dst.address + d + WIDTH)
      ensures after[k] == before[k]
    {
      CopiedAt(before, after, src, s, dst, d, WIDTH, k);
    }
  }

  /** Whether a round can fault depends only on which addresses are memory. */
  lemma TouchableKeys(a: map<int, byte>, b: map<int, byte>, buf: Region, off: int)
    requires a.Keys == b.Keys
    ensures Touchable(a, buf, off) <==> Touchable(b, buf, off)
    ensures Whole(a, buf, off) <==> Whole(b, buf, off)
  {
    forall k ensures k in a <==> k in b {
      assert k in a <==> k in a.Keys;
    }
    forall j | 0 <= j < WIDTH ensures Reachable(a, buf, off, j) <==> Reachable(b, buf, off, j) {
      assert buf.address + off + j in a <==> buf.address + off + j in b;
    }
  }

  /** Whole windows cannot fault. */
  lemma WholeTouchable(bytes: map<int, byte>, buf: Region, off: int)
    requires Whole(bytes, buf, off)
    ensures Touchable(bytes, buf, off)
  {
  }

  /** After the readers' loop over apart windows, the scratch bytes are the gathered ones. */
  lemma GatheredInto(before: map<int, byte>, after: map<int, byte>, src: Region, s: int, temp: Region)
    requires Whole(before, temp, 0) && Copied(before, after, src, s, temp, 0, WIDTH)
    ensures OnlyAt(before, after, temp.address, WIDTH)
    ensures Mapped(after, temp.address, WIDTH) && Load(after, temp.address, WIDTH) == Gathered(before, src, s)
  {
    CopiedGathers(before, after, src, s, temp, 0);
    CopiedOnlyAt(before, after, src, s, temp, 0);
    OnlyAtMoved(before, after, temp.address + 0, temp.address, WIDTH);
    LoadMoved(after, temp.address + 0, temp.address, WIDTH);
  }

  /**
   * After the writers' loop over apart windows, only the destination window changed, and
   * over eight bytes of memory it holds the scratch bytes reversed.
   */
  lemma ScatteredFrom(before: map<int, byte>, after: map<int, byte>, temp: Region, dst: Region, d: int)
    requires Whole(before, temp, 0) && Copied(before, after, temp, 0, dst, d, WIDTH)
    ensures OnlyAt(before, after, dst.address + d, WIDTH)
    ensures Whole(before, dst, d) ==> Mapped(after, dst.address + d, WIDTH)
                                      && Load(after, dst.address + d, WIDTH) == Reverse(Load(before, temp.address, WIDTH))
  {
    CopiedOnlyAt(before, after, temp, 0, dst, d);
    if Whole(before, dst, d) {
      ScatteredWhole(before, after, temp, dst, d);
    }
  }

  lemma ScatteredWhole(before: map<int, byte>, after: map<int, byte>, temp: Region, dst: Region, d: int)
    requires Whole(before, temp, 0) && Whole(before, dst, d) && Copied(before, after, temp, 0, dst, d, WIDTH)
    ensures Mapped(after, dst.address + d, WIDTH)
    ensures Load(after, dst.address + d, WIDTH) == Reverse(Load(before, temp.address, WIDTH))
  {
    CopiedReverses(before, after, temp, 0, dst, d);
    LoadMoved(before, temp.address + 0, temp.address, WIDTH);
  }

  /**
   * The loop itself: eight rounds of `dst[d + i] = src[s + 8 - i - 1]`, stopping at the
   * first byte inside a Buffer that is not memory. Between windows that do not overlap,
   * every round reads the source as it was before the loop.
   */
  method CopyReversed(m: Memory, src: Region, s: int, dst: Region, d: int) returns (o: Outcome)
    requires m.Valid()
    modifies m
    ensures m.Valid() && m.handles == old(m.handles) && m.next == old(m.next)
    ensures m.bytes.Keys == old(m.bytes).Keys
    ensures o.Fail? <==> !(Touchable(old(m.bytes), src, s) && Touchable(old(m.bytes), dst, d))
    ensures o.Fail? ==> o.error == Unmapped
    ensures o.Pass? && Apart(src.address + s, dst.address + d, WIDTH) ==>
      Copied(old(m.bytes), m.bytes, src, s, dst, d, WIDTH)
  {
    var i := 0;
    while i < WIDTH
      invariant i <= WIDTH
      invariant m.Valid() && m.handles == old(m.handles) && m.next == old(m.next)
      invariant m.bytes.Keys == old(m.bytes).Keys
      invariant forall j :: WIDTH - i <= j < WIDTH ==> Reachable(old(m.bytes), src, s, j)
      invariant forall j :: 0 <= j < i ==> Reachable(old(m.bytes), dst, d, j)
      invariant Apart(src.address + s, dst.address + d, WIDTH) ==> Copied(old(m.bytes), m.bytes, src, s, dst, d, i)
    {
      var x := IndexGet(m.bytes, src, s + WIDTH - i - 1);
      if x.Failure? {
        assert !Reachable(old(m.bytes), src, s, WIDTH - 1 - i);
        return Fail(Unmapped);
      }
      if Apart(src.address + s, dst.address + d, WIDTH) {
        RoundStep(old(m.bytes), m.bytes, src, s, dst, d, i);
      }
      var b := IndexSet(m.bytes, dst, d + i, x.value);
      if b.Failure? {
        assert !Reachable(old(m.bytes), dst, d, i);
        return Fail(Unmapped);
      }
      m.bytes := b.value;
      i := i + 1;
    }
    return Pass;
  }
}
