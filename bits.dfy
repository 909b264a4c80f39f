/**
 * Bytes, their big-endian bit strings, and bit reversal.
 *
 * Throughout the model a byte string is read as one big-endian bit string:
 * bit 0 is the most significant bit of byte 0, bit 8 the most significant
 * bit of byte 1, and so on.  This is the order in which the bit-serial
 * engine walks its buffers.
 */
module Bits {

  type Byte = bv8

  /** A string of `n` zero bytes (what `calloc` and the zero-fill of a
      resized buffer provide). */
  function Zeros(n: nat): (r: seq<Byte>)
    ensures |r| == n
    ensures forall i :: 0 <= i < n ==> r[i] == 0
  {
    seq(n, _ => 0)
  }

  /** The mask of bit `j` of a byte, counted from the most significant bit. */
  function TopMask(j: nat): Byte
    requires j < 8
  {
    if j == 0 then 0x80 else if j == 1 then 0x40 else if j == 2 then 0x20
    else if j == 3 then 0x10 else if j == 4 then 0x08 else if j == 5 then 0x04
    else if j == 6 then 0x02 else 0x01
  }

  /** The mask table agrees with shifting the top bit right by `j`. */
  lemma TopMaskShift(j: nat)
    requires j < 8
    ensures TopMask(j) == 0x80 >> j
  {
    if j == 0 {} else if j == 1 {} else if j == 2 {} else if j == 3 {}
    else if j == 4 {} else if j == 5 {} else if j == 6 {} else {}
  }

  /** Bit `j` of byte `b`, counted from the most significant bit. */
  predicate BitOf(b: Byte, j: nat)
    requires j < 8
  {
    b & TopMask(j) != 0
  }

  /** Bit i = 8m + j of a bit string is bit j of byte m. */
  lemma DivMod8(i: int, m: int, j: int)
    requires i == 8 * m + j && 0 <= j < 8
    ensures i / 8 == m && i % 8 == j
  {
  }

  /** Bit i = 8m + j of the bit string of `s` is bit j of byte m. */
  lemma BitAt(s: seq<Byte>, i: nat, m: nat, j: nat)
    requires i == 8 * m + j && j < 8 && m < |s|
    ensures i < 8 * |s| && BitsOf(s)[i] == BitOf(s[m], j)
  {
    DivMod8(i, m, j);
  }

  /** The big-endian bit string of a byte string. */
  function BitsOf(s: seq<Byte>): (r: seq<bool>)
    ensures |r| == 8 * |s|
  {
    seq(8 * |s|, i requires 0 <= i < 8 * |s| => BitOf(s[i / 8], i % 8))
  }

  /** Bit reversal of one byte: bit j becomes bit 7 - j. */
  function Reflect8(b: Byte): Byte
  {
    ((b & 0x01) << 7) | ((b & 0x02) << 5) | ((b & 0x04) << 3) | ((b & 0x08) << 1)
    | ((b & 0x10) >> 1) | ((b & 0x20) >> 3) | ((b & 0x40) >> 5) | ((b & 0x80) >> 7)
  }

  /** Bit j of a reflected byte is bit 7 - j of the byte. */
  lemma Reflect8Bits(b: Byte)
    ensures forall j :: 0 <= j < 8 ==> (BitOf(Reflect8(b), j) <==> BitOf(b, 7 - j))
  {
  }

  /** Bit reversal of a 16-bit register (`reflect_bits_16`): bit k goes to
      bit 15 - k; see Reflect16Bytes and RegisterReflection16. */
  function Reflect16(x: bv16): bv16
  {
    ((x & 0x0001) << 15) | ((x & 0x0002) << 13) | ((x & 0x0004) << 11) | ((x & 0x0008) << 9)
    | ((x & 0x0010) << 7) | ((x & 0x0020) << 5) | ((x & 0x0040) << 3) | ((x & 0x0080) << 1)
    | ((x & 0x0100) >> 1) | ((x & 0x0200) >> 3) | ((x & 0x0400) >> 5) | ((x & 0x0800) >> 7)
    | ((x & 0x1000) >> 9) | ((x & 0x2000) >> 11) | ((x & 0x4000) >> 13) | ((x & 0x8000) >> 15)
  }

  /** Byte-wise reflection of a buffer: every byte is reversed on its own,
      the order of the bytes is kept. */
  function ReflectEach(s: seq<Byte>): (r: seq<Byte>)
    ensures |r| == |s|
    ensures forall i {:trigger r[i]} :: 0 <= i < |s| ==> r[i] == Reflect8(s[i])
  {
    seq(|s|, i requires 0 <= i < |s| => Reflect8(s[i]))
  }

  /** `check_reflect`: reflect the bytes when the flag is set. */
  function CheckReflect(s: seq<Byte>, reflect: bool): (r: seq<Byte>)
    ensures |r| == |s|
    ensures reflect ==> r == ReflectEach(s)
    ensures !reflect ==> r == s
  {
    if reflect then ReflectEach(s) else s
  }

  /** The bytes of a sequence in reverse order. */
  function Reverse<T>(s: seq<T>): (r: seq<T>)
    ensures |r| == |s|
    ensures forall i {:trigger r[i]} :: 0 <= i < |s| ==> r[i] == s[|s| - 1 - i]
  {
    seq(|s|, i requires 0 <= i < |s| => s[|s| - 1 - i])
  }

  /** Bit-wise exclusive or of two equally long byte strings. */
  function XorBytes(a: seq<Byte>, b: seq<Byte>): (r: seq<Byte>)
    requires |a| == |b|
    ensures |r| == |a|
    ensures forall i {:trigger r[i]} :: 0 <= i < |a| ==> r[i] == a[i] ^ b[i]
  {
    seq(|a|, i requires 0 <= i < |a| => a[i] ^ b[i])
  }

  /** The two bytes of a 16-bit value, most significant first. */
  function BigEndian16(x: bv16): (r: seq<Byte>)
    ensures |r| == 2
  {
    [(x >> 8) as Byte, (x & 0xFF) as Byte]
  }

  /** A 16-bit value read from two bytes, the first the most significant. */
  function FromBigEndian16(hi: Byte, lo: Byte): bv16
  {
    ((hi as bv16) << 8) | (lo as bv16)
  }

  /** Byte-wise reflection is its own inverse. */
  lemma ReflectEachInvolutive(s: seq<Byte>)
    ensures ReflectEach(ReflectEach(s)) == s
  {
    forall i | 0 <= i < |s| ensures Reflect8(Reflect8(s[i])) == s[i] {
      var b := s[i];
      assert Reflect8(Reflect8(b)) == b;
    }
  }

  /** `reflect_bits_16` is its own inverse. */
  lemma Reflect16Involutive(x: bv16)
    ensures Reflect16(Reflect16(x)) == x
  {
  }

  /** `reflect_bits_16` reverses the whole 16-bit string of the register,
      not each byte on its own. */
  lemma RegisterReflection16(x: bv16)
    ensures BitsOf(BigEndian16(Reflect16(x))) == Reverse(BitsOf(BigEndian16(x)))
  {
    var be := BigEndian16(x);
    Reflect16Bytes(x);
    assert Reverse(ReflectEach(be)) == [Reflect8(be[1]), Reflect8(be[0])];
    ReverseReflectBits(be);
  }

  /** The bytes of a reflected 16-bit register: both bytes reflected, in
      swapped order. */
  lemma Reflect16Bytes(x: bv16)
    ensures BigEndian16(Reflect16(x)) == [Reflect8(BigEndian16(x)[1]), Reflect8(BigEndian16(x)[0])]
  {
  }

  /** Reflecting every byte and reversing the order of the bytes reverses
      the whole bit string: bit j of byte m goes to bit 7 - j of byte
      n - 1 - m. */
  lemma ReverseReflectBits(s: seq<Byte>)
    ensures BitsOf(Reverse(ReflectEach(s))) == Reverse(BitsOf(s))
  {
    var t := Reverse(ReflectEach(s));
    var a, b := BitsOf(t), Reverse(BitsOf(s));
    forall i | 0 <= i < 8 * |s| ensures a[i] == b[i] {
      var m, j := i / 8, i % 8;
      var n := |s| - 1 - m;
      BitAt(t, i, m, j);
      assert t[m] == Reflect8(s[n]);
      Reflect8Bits(s[n]);
      BitAt(s, 8 * |s| - 1 - i, n, 7 - j);
    }
  }

  /** Bit `j` of an exclusive or is the exclusive or of the two bits. */
  lemma XorBit(a: Byte, b: Byte, j: nat)
    requires j < 8
    ensures BitOf(a ^ b, j) == (BitOf(a, j) != BitOf(b, j))
  {
    var m := TopMask(j);
    assert m == 0x80 || m == 0x40 || m == 0x20 || m == 0x10 || m == 0x08 || m == 0x04 || m == 0x02 || m == 0x01;
  }

  /** A byte is determined by its eight bits. */
  lemma ByteFromBits(a: Byte, b: Byte)
    requires forall j :: 0 <= j < 8 ==> BitOf(a, j) == BitOf(b, j)
    ensures a == b
  {
    assert BitOf(a, 0) == BitOf(b, 0) && BitOf(a, 1) == BitOf(b, 1);
    assert BitOf(a, 2) == BitOf(b, 2) && BitOf(a, 3) == BitOf(b, 3);
    assert BitOf(a, 4) == BitOf(b, 4) && BitOf(a, 5) == BitOf(b, 5);
    assert BitOf(a, 6) == BitOf(b, 6) && BitOf(a, 7) == BitOf(b, 7);
  }

  /** A byte string is determined by its bit string. */
  lemma BitsOfInjective(a: seq<Byte>, b: seq<Byte>)
    requires BitsOf(a) == BitsOf(b)
    ensures a == b
  {
    assert |a| == |b|;
    forall m | 0 <= m < |a| ensures a[m] == b[m] {
      forall j | 0 <= j < 8 ensures BitOf(a[m], j) == BitOf(b[m], j) {
        assert (8 * m + j) / 8 == m && (8 * m + j) % 8 == j;
        assert BitsOf(a)[8 * m + j] == BitsOf(b)[8 * m + j];
      }
      ByteFromBits(a[m], b[m]);
    }
  }

  /** The bits of a slice are the matching slice of the bits. */
  lemma BitsOfSlice(s: seq<Byte>, a: nat, b: nat)
    requires a <= b <= |s|
    ensures BitsOf(s[a..b]) == BitsOf(s)[8 * a..8 * b]
  {
    var t, u := BitsOf(s[a..b]), BitsOf(s)[8 * a..8 * b];
    forall i | 0 <= i < 8 * (b - a) ensures t[i] == u[i] {
      BitsOfSliceAt(s, a, b, i, i / 8, i % 8);
    }
  }

  lemma BitsOfSliceAt(s: seq<Byte>, a: nat, b: nat, i: nat, m: nat, j: nat)
    requires a <= b <= |s| && i == 8 * m + j && j < 8 && m < b - a
    ensures BitsOf(s[a..b])[i] == BitsOf(s)[8 * a + i]
  {
    BitAt(s[a..b], i, m, j);
    BitAt(s, 8 * a + i, a + m, j);
  }

  /** The bits of a concatenation are the concatenation of the bits. */
  lemma BitsOfAppend(s: seq<Byte>, t: seq<Byte>)
    ensures BitsOf(s + t) == BitsOf(s) + BitsOf(t)
  {
    var u, a, b := BitsOf(s + t), BitsOf(s), BitsOf(t);
    forall k | 0 <= k < |a| ensures u[k] == a[k] {
      BitsOfAppendAt(s, t, k, k / 8, k % 8);
    }
    forall k | 0 <= k < |b| ensures u[|a| + k] == b[k] {
      BitsOfAppendAt(s, t, |a| + k, |s| + k / 8, k % 8);
    }
    assert u == a + b;
  }

  lemma BitsOfAppendAt(s: seq<Byte>, t: seq<Byte>, i: nat, m: nat, j: nat)
    requires i == 8 * m + j && j < 8 && m < |s| + |t|
    ensures BitsOf(s + t)[i] == if m < |s| then BitsOf(s)[i] else BitsOf(t)[i - 8 * |s|]
  {
    BitAt(s + t, i, m, j);
    if m < |s| {
      BitAt(s, i, m, j);
    } else {
      BitAt(t, i - 8 * |s|, m - |s|, j);
    }
  }

  /** Zero bytes have no bit set. */
  lemma BitsOfZeros(n: nat)
    ensures forall i :: 0 <= i < 8 * n ==> !BitsOf(Zeros(n))[i]
  {
  }

  /** The byte whose eight bits, most significant first, are b[k..k+8]. */
  function ByteOfBits(b: seq<bool>, k: nat): (r: Byte)
    requires k + 8 <= |b|
    ensures forall j :: 0 <= j < 8 ==> (BitOf(r, j) <==> b[k + j])
  {
    var r: Byte := (if b[k] then 0x80 else 0) | (if b[k + 1] then 0x40 else 0)
      | (if b[k + 2] then 0x20 else 0) | (if b[k + 3] then 0x10 else 0)
      | (if b[k + 4] then 0x08 else 0) | (if b[k + 5] then 0x04 else 0)
      | (if b[k + 6] then 0x02 else 0) | (if b[k + 7] then 0x01 else 0);
    assert BitOf(r, 0) == b[k] && BitOf(r, 1) == b[k + 1] && BitOf(r, 2) == b[k + 2];
    assert BitOf(r, 3) == b[k + 3] && BitOf(r, 4) == b[k + 4] && BitOf(r, 5) == b[k + 5];
    assert BitOf(r, 6) == b[k + 6] && BitOf(r, 7) == b[k + 7];
    r
  }

  /** The n bytes whose big-endian bit string is `b`. */
  function FromBits(b: seq<bool>, n: nat): (r: seq<Byte>)
    requires |b| == 8 * n
    ensures |r| == n
    decreases n, 1
  {
    if n == 0 then [] else FromBitsNonEmpty(b, n)
  }

  /** `FromBits` of a non-empty string: the first byte, then the rest. */
  function FromBitsNonEmpty(b: seq<bool>, n: nat): (r: seq<Byte>)
    requires 0 < n && |b| == 8 * n
    ensures |r| == n
    decreases n, 0
  {
    [ByteOfBits(b, 0)] + FromBits(b[8..], n - 1)
  }

  /** `FromBits` inverts `BitsOf`. */
  lemma {:induction false} FromBitsBits(b: seq<bool>, n: nat)
    requires |b| == 8 * n
    ensures BitsOf(FromBits(b, n)) == b
    decreases n
  {
    if n > 0 {
      FromBitsBits(b[8..], n - 1);
      assert FromBits(b, n) == [ByteOfBits(b, 0)] + FromBits(b[8..], n - 1);
      FirstByteBits(b, ByteOfBits(b, 0), FromBits(b[8..], n - 1));
    }
  }

  /** A byte made of the first eight bits, then bytes made of the rest. */
  lemma FirstByteBits(b: seq<bool>, x: Byte, rest: seq<Byte>)
    requires 8 <= |b| && x == ByteOfBits(b, 0) && BitsOf(rest) == b[8..]
    ensures BitsOf([x] + rest) == b
  {
    BitsOfAppend([x], rest);
    var h := BitsOf([x]);
    forall j | 0 <= j < 8 ensures h[j] == b[j] {
      BitAt([x], j, 0, j);
    }
    assert h == b[..8];
    assert b == b[..8] + b[8..];
  }
}
