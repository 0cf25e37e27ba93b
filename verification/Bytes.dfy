/** Bytes and the little-endian integers that the PE and compound-file formats are made of. */
module Bytes {

  type byte = x: int | 0 <= x < 256

  const TWO16: nat := 0x1_0000
  const TWO31: nat := 0x8000_0000
  const TWO32: nat := 0x1_0000_0000
  const TWO64: nat := 0x1_0000_0000_0000_0000

  /** The value of four bytes, least significant first. */
  function Word(b0: byte, b1: byte, b2: byte, b3: byte): (v: nat)
    ensures v < TWO32
  {
    var x0: int, x1: int, x2: int, x3: int := b0, b1, b2, b3;
    x0 + 0x100 * x1 + 0x1_0000 * x2 + 0x100_0000 * x3
  }

  function U16(b: seq<byte>, off: nat): (v: nat)
    requires off + 2 <= |b|
    ensures v < TWO16
  {
    Word(b[off], b[off + 1], 0, 0)
  }

  function U32(b: seq<byte>, off: nat): (v: nat)
    requires off + 4 <= |b|
    ensures v < TWO32
  {
    Word(b[off], b[off + 1], b[off + 2], b[off + 3])
  }

  function U64(b: seq<byte>, off: nat): (v: nat)
    requires off + 8 <= |b|
    ensures v < TWO64
  {
    U32(b, off) + TWO32 * U32(b, off + 4)
  }

  /** Byte number `k` (0 is the least significant) of a 32-bit value. */
  function ByteOf(v: nat, k: nat): byte
    requires k < 4
  {
    if k == 0 then v % 0x100
    else if k == 1 then v / 0x100 % 0x100
    else if k == 2 then v / 0x100 / 0x100 % 0x100
    else v / 0x100 / 0x100 / 0x100 % 0x100
  }

  function Put16(v: nat): (b: seq<byte>)
    ensures |b| == 2
  {
    [ByteOf(v, 0), ByteOf(v, 1)]
  }

  function Put32(v: nat): (b: seq<byte>)
    ensures |b| == 4
  {
    [ByteOf(v, 0), ByteOf(v, 1), ByteOf(v, 2), ByteOf(v, 3)]
  }

  function Put64(v: nat): (b: seq<byte>)
    ensures |b| == 8
  {
    Put32(v % TWO32) + Put32(v / TWO32)
  }

  lemma WordOfBytes(v: nat)
    requires v < TWO32
    ensures Word(ByteOf(v, 0), ByteOf(v, 1), ByteOf(v, 2), ByteOf(v, 3)) == v
  {
  }

  lemma BytesOfWord(b0: byte, b1: byte, b2: byte, b3: byte)
    ensures var v := Word(b0, b1, b2, b3);
            ByteOf(v, 0) == b0 && ByteOf(v, 1) == b1 && ByteOf(v, 2) == b2 && ByteOf(v, 3) == b3
  {
    var x0: int, x1: int, x2: int, x3: int := b0, b1, b2, b3;
    var w2 := x2 + 0x100 * x3;
    var w1 := x1 + 0x100 * w2;
    SplitByte(x0, w1);
    SplitByte(x1, w2);
    SplitByte(x2, x3);
  }

  /** The low byte of a number and what is above it. */
  lemma SplitByte(low: int, high: int)
    requires 0 <= low < 0x100
    ensures (low + 0x100 * high) % 0x100 == low && (low + 0x100 * high) / 0x100 == high
  {
  }

  lemma Read16(b: seq<byte>, off: nat, v: nat)
    requires off + 2 <= |b| && v < TWO16 && b[off..off + 2] == Put16(v)
    ensures U16(b, off) == v
  {
    assert b[off] == b[off..off + 2][0] && b[off + 1] == b[off..off + 2][1];
  }

  lemma Read32(b: seq<byte>, off: nat, v: nat)
    requires off + 4 <= |b| && v < TWO32 && b[off..off + 4] == Put32(v)
    ensures U32(b, off) == v
  {
    var w := b[off..off + 4];
    assert b[off] == w[0] && b[off + 1] == w[1] && b[off + 2] == w[2] && b[off + 3] == w[3];
    WordOfBytes(v);
  }

  lemma Read64(b: seq<byte>, off: nat, v: nat)
    requires off + 8 <= |b| && v < TWO64 && b[off..off + 8] == Put64(v)
    ensures U64(b, off) == v
  {
    var w := b[off..off + 8];
    assert b[off..off + 4] == w[..4] == Put32(v % TWO32);
    assert b[off + 4..off + 8] == w[4..] == Put32(v / TWO32);
    Read32(b, off, v % TWO32);
    Read32(b, off + 4, v / TWO32);
  }

  lemma Write16(b: seq<byte>, off: nat)
    requires off + 2 <= |b|
    ensures Put16(U16(b, off)) == b[off..off + 2]
  {
    BytesOfWord(b[off], b[off + 1], 0, 0);
  }

  lemma Write32(b: seq<byte>, off: nat)
    requires off + 4 <= |b|
    ensures Put32(U32(b, off)) == b[off..off + 4]
  {
    BytesOfWord(b[off], b[off + 1], b[off + 2], b[off + 3]);
  }

  /** The 32-bit integers stored back to back in `b`. */
  function DecodeInts(b: seq<byte>): (xs: seq<nat>)
    requires |b| % 4 == 0
    ensures |xs| == |b| / 4
  {
    seq(|b| / 4, i requires 0 <= i < |b| / 4 => U32(b, 4 * i))
  }

  function EncodeInts(xs: seq<nat>): (b: seq<byte>)
    ensures |b| == 4 * |xs|
  {
    seq(4 * |xs|, i requires 0 <= i < 4 * |xs| => ByteOf(xs[i / 4], i % 4))
  }

  ghost predicate Words(xs: seq<nat>) {
    forall i :: 0 <= i < |xs| ==> xs[i] < TWO32
  }

  lemma EncodedAt(xs: seq<nat>, i: nat, k: nat)
    requires i < |xs| && k < 4
    ensures EncodeInts(xs)[4 * i + k] == ByteOf(xs[i], k)
  {
    assert (4 * i + k) / 4 == i && (4 * i + k) % 4 == k;
  }

  lemma DecodedAt(xs: seq<nat>, i: nat)
    requires i < |xs| && xs[i] < TWO32
    ensures DecodeInts(EncodeInts(xs))[i] == xs[i]
  {
    hide Word, ByteOf;
    EncodedAt(xs, i, 0);
    EncodedAt(xs, i, 1);
    EncodedAt(xs, i, 2);
    EncodedAt(xs, i, 3);
    WordOfBytes(xs[i]);
  }

  lemma DecodeEncodeInts(xs: seq<nat>)
    requires Words(xs)
    ensures DecodeInts(EncodeInts(xs)) == xs
  {
    var ys := DecodeInts(EncodeInts(xs));
    assert |ys| == |xs|;
    forall i | 0 <= i < |xs|
      ensures ys[i] == xs[i]
    {
      DecodedAt(xs, i);
    }
  }

  /** Bytes are determined by the integers they encode. */
  lemma EncodeDecodeInts(b: seq<byte>)
    requires |b| % 4 == 0
    ensures EncodeInts(DecodeInts(b)) == b
    ensures Words(DecodeInts(b))
  {
    var xs := DecodeInts(b);
    forall p | 0 <= p < |b|
      ensures EncodeInts(xs)[p] == b[p]
    {
      var i := p / 4;
      assert xs[i] == Word(b[4 * i], b[4 * i + 1], b[4 * i + 2], b[4 * i + 3]);
      BytesOfWord(b[4 * i], b[4 * i + 1], b[4 * i + 2], b[4 * i + 3]);
    }
  }

  predicate AllZero(b: seq<byte>) {
    forall i :: 0 <= i < |b| ==> b[i] == 0
  }

  function Zeros(n: nat): (z: seq<byte>)
    ensures |z| == n && AllZero(z)
  {
    seq(n, _ => 0)
  }

  // ---------------------------------------------------------------- writing over a buffer

  /** `c` with `b` written over it at `off`. */
  function Overlay(c: seq<byte>, off: nat, b: seq<byte>): (r: seq<byte>)
    requires off + |b| <= |c|
    ensures |r| == |c| && r[off..off + |b|] == b
    ensures forall p :: 0 <= p < |c| && !(off <= p < off + |b|) ==> r[p] == c[p]
  {
    c[..off] + b + c[off + |b|..]
  }

  method PutBytes(a: array<byte>, off: nat, b: seq<byte>)
    requires off + |b| <= a.Length
    modifies a
    ensures a[..] == Overlay(old(a[..]), off, b)
  {
    ghost var was := a[..];
    for i := 0 to |b|
      invariant forall p :: 0 <= p < a.Length ==> a[p] == if off <= p < off + i then b[p - off] else was[p]
    {
      a[off + i] := b[i];
    }
    assert a[..off] == was[..off] && a[off..off + |b|] == b && a[off + |b|..] == was[off + |b|..];
    assert a[..] == a[..off] + a[off..off + |b|] + a[off + |b|..];
  }
}
