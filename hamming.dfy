/**
 * The Hamming distance helpers of the polynomial tester.
 *
 * The distance between two byte fields is the number of bit positions in
 * which they differ.  The tester computes it two ways: byte by byte, by
 * shifting the XOR of each byte pair out of the top and counting the ones
 * that fall off, and for two 64-bit words at once, by counting the ones of
 * their XOR with a population count (the compiler builtin, or the classic
 * divide-and-conquer bit count as an alternative).
 */
module Hamming {
  import opened Bits

  /** The largest `uint16_t`: a length at or above it is refused. */
  const Uint16Max: nat := 0xFFFF

  // ---------------------------------------------------------------------
  // Counting bits
  // ---------------------------------------------------------------------

  /** The number of set bits in a bit string. */
  function Ones(a: seq<bool>): (n: nat)
    ensures n <= |a|
    decreases |a|
  {
    if |a| == 0 then 0
    else Ones(a[..|a| - 1]) + Flag(a[|a| - 1])
  }

  /** One for true, zero for false. */
  function Flag(b: bool): (n: nat)
    ensures n == 1 <==> b
    ensures n <= 1
  {
    if b then 1 else 0
  }

  /** The number of positions in which two equally long bit strings differ. */
  function Differ(a: seq<bool>, b: seq<bool>): (n: nat)
    requires |a| == |b|
    ensures n <= |a|
    decreases |a|
  {
    if |a| == 0 then 0
    else Differ(a[..|a| - 1], b[..|b| - 1]) + (if a[|a| - 1] != b[|b| - 1] then 1 else 0)
  }

  lemma {:induction false} OnesAppend(a: seq<bool>, b: seq<bool>)
    ensures Ones(a + b) == Ones(a) + Ones(b)
    decreases |b|
  {
    if |b| > 0 {
      assert (a + b)[..|a + b| - 1] == a + b[..|b| - 1];
      OnesAppend(a, b[..|b| - 1]);
    } else {
      assert a + b == a;
    }
  }

  lemma {:induction false} DifferAppend(a: seq<bool>, b: seq<bool>, c: seq<bool>, d: seq<bool>)
    requires |a| == |b| && |c| == |d|
    ensures Differ(a + c, b + d) == Differ(a, b) + Differ(c, d)
    decreases |c|
  {
    if |c| > 0 {
      assert (a + c)[..|a + c| - 1] == a + c[..|c| - 1];
      assert (b + d)[..|b + d| - 1] == b + d[..|d| - 1];
      DifferAppend(a, b, c[..|c| - 1], d[..|d| - 1]);
    } else {
      assert a + c == a && b + d == b;
    }
  }

  /** Counting the differing positions is counting the ones of the XOR. */
  lemma {:induction false} DifferIsOnes(a: seq<bool>, b: seq<bool>, c: seq<bool>)
    requires |a| == |b| == |c|
    requires forall i :: 0 <= i < |c| ==> c[i] == (a[i] != b[i])
    ensures Differ(a, b) == Ones(c)
    decreases |c|
  {
    if |c| > 0 {
      var n := |c| - 1;
      DifferIsOnes(a[..n], b[..n], c[..n]);
    }
  }

  lemma {:induction false} DifferSymmetric(a: seq<bool>, b: seq<bool>)
    requires |a| == |b|
    ensures Differ(a, b) == Differ(b, a)
    decreases |a|
  {
    if |a| > 0 {
      DifferSymmetric(a[..|a| - 1], b[..|b| - 1]);
    }
  }

  lemma {:induction false} DifferZero(a: seq<bool>, b: seq<bool>)
    requires |a| == |b|
    ensures Differ(a, b) == 0 <==> a == b
    decreases |a|
  {
    if |a| > 0 {
      var n := |a| - 1;
      DifferZero(a[..n], b[..n]);
      assert a == a[..n] + [a[n]] && b == b[..n] + [b[n]];
    }
  }

  /** One for a set bit, zero for a clear one. */
  function Bit(b: Byte, j: nat): (n: nat)
    requires j < 8
    ensures n == 1 <==> BitOf(b, j)
    ensures n <= 1
  {
    if BitOf(b, j) then 1 else 0
  }

  /** The population count of one byte: the ones among its eight bits. */
  function Popcount8(b: Byte): (n: nat)
    ensures n <= 8
  {
    Ones(BitsOf([b]))
  }

  /** The population count of a byte is the sum of its bits. */
  lemma Popcount8Sum(b: Byte)
    ensures Popcount8(b) == Bit(b, 0) + Bit(b, 1) + Bit(b, 2) + Bit(b, 3)
                          + Bit(b, 4) + Bit(b, 5) + Bit(b, 6) + Bit(b, 7)
  {
    var s := BitsOf([b]);
    forall j | 0 <= j < 8 ensures s[j] == BitOf(b, j) {
      BitAt([b], j, 0, j);
    }
    Ones8(s);
  }

  /** The ones of an eight-bit string, position by position. */
  lemma Ones8(s: seq<bool>)
    requires |s| == 8
    ensures Ones(s) == Flag(s[0]) + Flag(s[1]) + Flag(s[2]) + Flag(s[3])
                     + Flag(s[4]) + Flag(s[5]) + Flag(s[6]) + Flag(s[7])
  {
    OnesSplit(s, 4); Ones4(s[..4]); Ones4(s[4..]);
  }

  lemma Ones4(s: seq<bool>)
    requires |s| == 4
    ensures Ones(s) == Flag(s[0]) + Flag(s[1]) + Flag(s[2]) + Flag(s[3])
  {
    OnesSplit(s, 2); Ones2(s[..2]); Ones2(s[2..]);
  }

  lemma Ones2(s: seq<bool>)
    requires |s| == 2
    ensures Ones(s) == Flag(s[0]) + Flag(s[1])
  {
    assert s[..1][..0] == [];
  }

  lemma OnesSplit(s: seq<bool>, k: nat)
    requires k <= |s|
    ensures Ones(s) == Ones(s[..k]) + Ones(s[k..])
  {
    OnesAppend(s[..k], s[k..]);
    assert s[..k] + s[k..] == s;
  }

  /** Shifting a byte left by one loses its top bit and keeps the others. */
  lemma Popcount8Shift(x: Byte)
    ensures Popcount8(x) == (if x & 0x80 != 0 then 1 else 0) + Popcount8(x << 1)
  {
    Popcount8Sum(x);
    Popcount8Sum(x << 1);
  }

  /** The sum of the population counts of the bytes of a string. */
  function PopcountBytes(s: seq<Byte>): (n: nat)
    ensures n <= 8 * |s|
    decreases |s|
  {
    if |s| == 0 then 0 else PopcountBytes(s[..|s| - 1]) + Popcount8(s[|s| - 1])
  }

  /** Counting byte by byte counts every bit of the string. */
  lemma {:induction false} PopcountBytesBits(s: seq<Byte>)
    ensures PopcountBytes(s) == Ones(BitsOf(s))
    decreases |s|
  {
    if |s| > 0 {
      var n := |s| - 1;
      assert s == s[..n] + [s[n]];
      BitsOfAppend(s[..n], [s[n]]);
      OnesAppend(BitsOf(s[..n]), BitsOf([s[n]]));
      PopcountBytesBits(s[..n]);
    }
  }

  lemma {:induction false} PopcountBytesAppend(s: seq<Byte>, t: seq<Byte>)
    ensures PopcountBytes(s + t) == PopcountBytes(s) + PopcountBytes(t)
    decreases |t|
  {
    if |t| > 0 {
      assert (s + t)[..|s + t| - 1] == s + t[..|t| - 1];
      PopcountBytesAppend(s, t[..|t| - 1]);
    } else {
      assert s + t == s;
    }
  }

  lemma PopcountBytesSplit(s: seq<Byte>, k: nat)
    requires k <= |s|
    ensures PopcountBytes(s) == PopcountBytes(s[..k]) + PopcountBytes(s[k..])
  {
    SplitJoin(s, k);
    PopcountBytesAppend(s[..k], s[k..]);
  }

  /** A sequence is its prefix followed by its suffix. */
  lemma SplitJoin<T>(s: seq<T>, k: nat)
    requires k <= |s|
    ensures s[..k] + s[k..] == s
  {
  }

  lemma PopcountBytes2(s: seq<Byte>)
    requires |s| == 2
    ensures PopcountBytes(s) == Popcount8(s[0]) + Popcount8(s[1])
  {
    assert s[..1][..0] == [];
  }

  lemma PopcountBytes4(s: seq<Byte>)
    requires |s| == 4
    ensures PopcountBytes(s) == Popcount8(s[0]) + Popcount8(s[1]) + Popcount8(s[2]) + Popcount8(s[3])
  {
    PopcountBytesSplit(s, 2); PopcountBytes2(s[..2]); PopcountBytes2(s[2..]);
  }

  /** The population count of eight bytes, byte by byte. */
  lemma PopcountBytes8(s: seq<Byte>)
    requires |s| == 8
    ensures PopcountBytes(s) == Popcount8(s[0]) + Popcount8(s[1]) + Popcount8(s[2]) + Popcount8(s[3])
      + Popcount8(s[4]) + Popcount8(s[5]) + Popcount8(s[6]) + Popcount8(s[7])
  {
    PopcountBytesSplit(s, 4); PopcountBytes4(s[..4]); PopcountBytes4(s[4..]);
  }

  // ---------------------------------------------------------------------
  // The Hamming distance of two byte fields
  // ---------------------------------------------------------------------

  /** The Hamming distance of two equally long fields: the number of bit
      positions in which they differ. */
  function Distance(s: seq<Byte>, t: seq<Byte>): (d: nat)
    requires |s| == |t|
    ensures d <= 8 * |s|
  {
    Differ(BitsOf(s), BitsOf(t))
  }

  /** The distance is the population count of the byte-wise XOR. */
  lemma DistanceIsPopcount(s: seq<Byte>, t: seq<Byte>)
    requires |s| == |t|
    ensures Distance(s, t) == PopcountBytes(XorBytes(s, t))
  {
    DistanceIsOnes(s, t);
    PopcountBytesBits(XorBytes(s, t));
  }

  /** The distance counts the ones of the XOR of the bit strings. */
  lemma DistanceIsOnes(s: seq<Byte>, t: seq<Byte>)
    requires |s| == |t|
    ensures Distance(s, t) == Ones(BitsOf(XorBytes(s, t)))
  {
    var a, b, c := BitsOf(s), BitsOf(t), BitsOf(XorBytes(s, t));
    forall i | 0 <= i < |c| ensures c[i] == (a[i] != b[i]) {
      var m, j := i / 8, i % 8;
      BitAt(s, i, m, j);
      BitAt(t, i, m, j);
      BitAt(XorBytes(s, t), i, m, j);
      XorBit(s[m], t[m], j);
    }
    DifferIsOnes(a, b, c);
  }

  /** Appending one byte to each field adds the ones of their XOR. */
  lemma DistanceSnoc(s: seq<Byte>, t: seq<Byte>, x: Byte, y: Byte)
    requires |s| == |t|
    ensures Distance(s + [x], t + [y]) == Distance(s, t) + Popcount8(x ^ y)
  {
    DistanceAppend(s, t, [x], [y]);
    DistanceByte(x, y);
  }

  /** Distances of concatenated fields add up. */
  lemma DistanceAppend(s: seq<Byte>, t: seq<Byte>, u: seq<Byte>, v: seq<Byte>)
    requires |s| == |t| && |u| == |v|
    ensures Distance(s + u, t + v) == Distance(s, t) + Distance(u, v)
  {
    BitsOfAppend(s, u);
    BitsOfAppend(t, v);
    DifferAppend(BitsOf(s), BitsOf(t), BitsOf(u), BitsOf(v));
  }

  /** The distance of two single bytes is the population count of their XOR. */
  lemma DistanceByte(x: Byte, y: Byte)
    ensures Distance([x], [y]) == Popcount8(x ^ y)
  {
    DistanceIsPopcount([x], [y]);
    assert XorBytes([x], [y]) == [x ^ y];
    assert [x ^ y][..0] == [];
  }

  /** The distance does not depend on the order of the fields. */
  lemma DistanceSymmetric(s: seq<Byte>, t: seq<Byte>)
    requires |s| == |t|
    ensures Distance(s, t) == Distance(t, s)
  {
    DifferSymmetric(BitsOf(s), BitsOf(t));
  }

  /** The distance is zero exactly on identical fields. */
  lemma DistanceZero(s: seq<Byte>, t: seq<Byte>)
    requires |s| == |t|
    ensures Distance(s, t) == 0 <==> s == t
  {
    DifferZero(BitsOf(s), BitsOf(t));
    if BitsOf(s) == BitsOf(t) {
      BitsOfInjective(s, t);
    }
  }

  /** Counting the ones of a byte by shifting it out of the top, as the
      inner loop of `GetHammingDistance` does.  The loop stops as soon as
      the byte is zero, after at most eight shifts. */
  method CountByShifting(x0: Byte) returns (count: nat, ghost passes: nat)
    ensures count == Popcount8(x0)
    ensures passes == Rank(x0) <= 8
  {
    count := 0;
    passes := 0;
    var curXor := x0;
    while curXor != 0
      invariant count + Popcount8(curXor) == Popcount8(x0)
      invariant passes + Rank(curXor) == Rank(x0)
      decreases Rank(curXor)
    {
      Popcount8Shift(curXor);
      RankShift(curXor);
      if curXor & 0x80 != 0 {
        count := count + 1;
      }
      curXor := curXor << 1;
      passes := passes + 1;
    }
    Popcount8Sum(0);
  }

  /** How many left shifts a byte survives before it is zero: 8 minus the
      position of its lowest set bit. */
  function Rank(x: Byte): (r: nat)
    ensures r <= 8 && (r == 0 <==> x == 0)
  {
    if x == 0 then 0
    else if x & 0x7F == 0 then 1
    else if x & 0x3F == 0 then 2
    else if x & 0x1F == 0 then 3
    else if x & 0x0F == 0 then 4
    else if x & 0x07 == 0 then 5
    else if x & 0x03 == 0 then 6
    else if x & 0x01 == 0 then 7
    else 8
  }

  /** Each shift of a non-zero byte brings it one step closer to zero. */
  lemma RankShift(x: Byte)
    requires x != 0
    ensures Rank(x << 1) == Rank(x) - 1
  {
  }

  /**
   * The distance of the first `len` bytes of two fields.  A length at or
   * above the largest 16-bit value is refused with distance 0.  The 32-bit
   * sum cannot wrap: it is at most 8 * 65534.
   */
  method GetHammingDistance(fieldA: array<Byte>, fieldB: array<Byte>, len: nat) returns (distanceSum: nat)
    requires len <= Uint16Max
    requires len < Uint16Max ==> len <= fieldA.Length && len <= fieldB.Length
    ensures len == Uint16Max ==> distanceSum == 0
    ensures len < Uint16Max ==> distanceSum == Distance(fieldA[..len], fieldB[..len])
    ensures distanceSum <= 8 * len < 0x1_0000_0000
  {
    distanceSum := 0;
    if len >= Uint16Max {
      return;
    }
    var i := 0;
    while i < len
      invariant i <= len
      invariant distanceSum == Distance(fieldA[..i], fieldB[..i])
    {
      ghost var passes;
      var curSum;
      curSum, passes := CountByShifting(fieldA[i] ^ fieldB[i]);
      DistanceSnoc(fieldA[..i], fieldB[..i], fieldA[i], fieldB[i]);
      assert fieldA[..i + 1] == fieldA[..i] + [fieldA[i]];
      assert fieldB[..i + 1] == fieldB[..i] + [fieldB[i]];
      distanceSum := distanceSum + curSum;
      i := i + 1;
    }
  }

  // ---------------------------------------------------------------------
  // 64-bit words
  // ---------------------------------------------------------------------

  /** The byte of `x` that starts at bit `s` (counted from the least
      significant end). */
  function Lane(x: bv64, s: bv64): Byte
    requires s <= 56
  {
    ((x >> s) & 0xFF) as Byte
  }

  /** The eight bytes of a 64-bit word, most significant first. */
  function Bytes64(x: bv64): (r: seq<Byte>)
    ensures |r| == 8
  {
    [Lane(x, 56), Lane(x, 48), Lane(x, 40), Lane(x, 32),
     Lane(x, 24), Lane(x, 16), Lane(x, 8), Lane(x, 0)]
  }

  lemma LanesXor(a: bv64, b: bv64)
    ensures Lane(a ^ b, 56) == Lane(a, 56) ^ Lane(b, 56) && Lane(a ^ b, 48) == Lane(a, 48) ^ Lane(b, 48)
    ensures Lane(a ^ b, 40) == Lane(a, 40) ^ Lane(b, 40) && Lane(a ^ b, 32) == Lane(a, 32) ^ Lane(b, 32)
    ensures Lane(a ^ b, 24) == Lane(a, 24) ^ Lane(b, 24) && Lane(a ^ b, 16) == Lane(a, 16) ^ Lane(b, 16)
    ensures Lane(a ^ b, 8) == Lane(a, 8) ^ Lane(b, 8) && Lane(a ^ b, 0) == Lane(a, 0) ^ Lane(b, 0)
  {
  }

  lemma Bytes64Injective(a: bv64, b: bv64)
    requires Bytes64(a) == Bytes64(b)
    ensures a == b
  {
    assert Lane(a, 56) == Lane(b, 56) && Lane(a, 48) == Lane(b, 48);
    assert Lane(a, 40) == Lane(b, 40) && Lane(a, 32) == Lane(b, 32);
    assert Lane(a, 24) == Lane(b, 24) && Lane(a, 16) == Lane(b, 16);
    assert Lane(a, 8) == Lane(b, 8) && Lane(a, 0) == Lane(b, 0);
  }

  /** The population count of a 64-bit word: the ones among its 64 bits. */
  function Popcount64(x: bv64): (n: nat)
    ensures n <= 64
  {
    Ones(BitsOf(Bytes64(x)))
  }

  /** The population count of a word is the sum over its bytes. */
  lemma Popcount64Lanes(x: bv64)
    ensures Popcount64(x) == Popcount8(Lane(x, 0)) + Popcount8(Lane(x, 8)) + Popcount8(Lane(x, 16))
      + Popcount8(Lane(x, 24)) + Popcount8(Lane(x, 32)) + Popcount8(Lane(x, 40))
      + Popcount8(Lane(x, 48)) + Popcount8(Lane(x, 56))
  {
    var s := Bytes64(x);
    PopcountBytesBits(s);
    PopcountBytes8(s);
  }

  /** The population count of the XOR of two words is the Hamming
      distance of their byte strings. */
  lemma WordDistance(a: bv64, b: bv64)
    ensures Popcount64(a ^ b) == Distance(Bytes64(a), Bytes64(b))
  {
    DistanceBytes8(Bytes64(a), Bytes64(b));
    PopcountXor(a, b);
  }

  /** The distance of two 8-byte strings, byte by byte. */
  lemma DistanceBytes8(s: seq<Byte>, t: seq<Byte>)
    requires |s| == |t| == 8
    ensures Distance(s, t)
      == Popcount8(s[0] ^ t[0]) + Popcount8(s[1] ^ t[1]) + Popcount8(s[2] ^ t[2]) + Popcount8(s[3] ^ t[3])
       + Popcount8(s[4] ^ t[4]) + Popcount8(s[5] ^ t[5]) + Popcount8(s[6] ^ t[6]) + Popcount8(s[7] ^ t[7])
  {
    DistanceIsPopcount(s, t);
    XorBytes8(s, t);
  }

  /** The population count of `a ^ b`, byte by byte. */
  lemma PopcountXor(a: bv64, b: bv64)
    ensures var s, t := Bytes64(a), Bytes64(b);
      Popcount64(a ^ b)
      == Popcount8(s[0] ^ t[0]) + Popcount8(s[1] ^ t[1]) + Popcount8(s[2] ^ t[2]) + Popcount8(s[3] ^ t[3])
       + Popcount8(s[4] ^ t[4]) + Popcount8(s[5] ^ t[5]) + Popcount8(s[6] ^ t[6]) + Popcount8(s[7] ^ t[7])
  {
    Popcount64Lanes(a ^ b);
    XorLanes(a, b);
  }

  /** Each byte of `a ^ b` is the XOR of the same bytes of `a` and `b`. */
  lemma XorLanes(a: bv64, b: bv64)
    ensures var s, t := Bytes64(a), Bytes64(b);
      Lane(a ^ b, 56) == s[0] ^ t[0] && Lane(a ^ b, 48) == s[1] ^ t[1]
      && Lane(a ^ b, 40) == s[2] ^ t[2] && Lane(a ^ b, 32) == s[3] ^ t[3]
      && Lane(a ^ b, 24) == s[4] ^ t[4] && Lane(a ^ b, 16) == s[5] ^ t[5]
      && Lane(a ^ b, 8) == s[6] ^ t[6] && Lane(a ^ b, 0) == s[7] ^ t[7]
  {
    LanesXor(a, b);
    Bytes64Index(a);
    Bytes64Index(b);
  }

  lemma Bytes64Index(x: bv64)
    ensures Bytes64(x)[0] == Lane(x, 56) && Bytes64(x)[1] == Lane(x, 48)
    ensures Bytes64(x)[2] == Lane(x, 40) && Bytes64(x)[3] == Lane(x, 32)
    ensures Bytes64(x)[4] == Lane(x, 24) && Bytes64(x)[5] == Lane(x, 16)
    ensures Bytes64(x)[6] == Lane(x, 8) && Bytes64(x)[7] == Lane(x, 0)
  {
  }

  lemma XorBytes8(s: seq<Byte>, t: seq<Byte>)
    requires |s| == |t| == 8
    ensures PopcountBytes(XorBytes(s, t))
      == Popcount8(s[0] ^ t[0]) + Popcount8(s[1] ^ t[1]) + Popcount8(s[2] ^ t[2]) + Popcount8(s[3] ^ t[3])
       + Popcount8(s[4] ^ t[4]) + Popcount8(s[5] ^ t[5]) + Popcount8(s[6] ^ t[6]) + Popcount8(s[7] ^ t[7])
  {
    PopcountBytes8(XorBytes(s, t));
  }

  // Parallel bit counting
  // ---------------------------------------------------------------------

  /** `TWO(c)`: the word with only bit `c` set. */
  function Two(c: bv64): bv64
    requires c < 64
  {
    1 << c
  }

  /** `MASK(c)`: all ones divided by 2^(2^c) + 1. */
  function Mask(c: bv64): bv64
    requires c < 6
  {
    0xFFFF_FFFF_FFFF_FFFF / (Two(Two(c)) + 1)
  }

  /** `MASK(c)` leaves ones in the low half of every field of 2^(c+1) bits;
      these are the constants `ParallelBitcount` uses. */
  lemma MacroConstants()
    ensures Two(0) == 1 && Mask(0) == 0x5555_5555_5555_5555
    ensures Two(1) == 2 && Mask(1) == 0x3333_3333_3333_3333
    ensures Two(2) == 4 && Mask(2) == 0x0F0F_0F0F_0F0F_0F0F
    ensures Two(3) == 8 && Mask(3) == 0x00FF_00FF_00FF_00FF
    ensures Two(4) == 16 && Mask(4) == 0x0000_FFFF_0000_FFFF
    ensures Two(5) == 32 && Mask(5) == 0x0000_0000_FFFF_FFFF
  {
  }

  /** `COUNT(x, c)` with `MASK(c)` and `TWO(c)` passed in: adds the
      neighbouring fields of `two` bits pairwise. */
  function Count(x: bv64, mask: bv64, two: bv64): bv64
    requires two < 64
  {
    (x & mask) + ((x >> two) & mask)
  }

  /** The `(int8_t)` conversion of an integer: its value modulo 256, read as
      a signed byte. */
  function Int8Of(v: int): (r: int)
    ensures -128 <= r < 128 && (r - v) % 256 == 0
  {
    var m := v % 256;
    if m < 128 then m else m - 256
  }

  /** The `(int8_t)` conversion of a 64-bit word: its low byte, signed. */
  function Int8OfWord(x: bv64): (r: int)
    ensures -128 <= r < 128
  {
    var low := Lane(x, 0) as int;
    if low < 128 then low else low - 256
  }

  /** The divide-and-conquer bit count: `COUNT(n, c)` for c = 0 to 5, then
      the conversion to a signed byte. */
  function ParallelBitcount(n: bv64): (c: int)
  {
    var n0 := Count(n, 0x5555_5555_5555_5555, 1);
    var n1 := Count(n0, 0x3333_3333_3333_3333, 2);
    var n2 := Count(n1, 0x0F0F_0F0F_0F0F_0F0F, 4);
    var n3 := Count(n2, 0x00FF_00FF_00FF_00FF, 8);
    var n4 := Count(n3, 0x0000_FFFF_0000_FFFF, 16);
    var n5 := Count(n4, 0x0000_0000_FFFF_FFFF, 32);
    Int8OfWord(n5)
  }

  /** The first three rounds, on one byte: after them the byte holds its
      own population count. */
  function Swar8(b: Byte): Byte
  {
    var n0 := (b & 0x55) + ((b >> 1) & 0x55);
    var n1 := (n0 & 0x33) + ((n0 >> 2) & 0x33);
    (n1 & 0x0F) + ((n1 >> 4) & 0x0F)
  }

  lemma Swar8Bits(b: Byte)
    ensures Swar8(b) as int == Bit(b, 0) + Bit(b, 1) + Bit(b, 2) + Bit(b, 3)
                             + Bit(b, 4) + Bit(b, 5) + Bit(b, 6) + Bit(b, 7)
  {
  }

  /** A byte that holds the three-round count of another holds its
      population count. */
  lemma Swar8Count(a: Byte, b: Byte)
    requires a == Swar8(b)
    ensures a as int == Popcount8(b) && a <= 8
  {
    Popcount8Sum(b);
    Swar8Bits(b);
  }

  function LowRounds(n: bv64): bv64
  {
    Count(Count(Count(n, 0x5555_5555_5555_5555, 1), 0x3333_3333_3333_3333, 2), 0x0F0F_0F0F_0F0F_0F0F, 4)
  }

  /** The first three rounds never carry out of a byte: every byte of the
      word ends up holding the three-round count of the same byte of `n`. */
  lemma LowRoundsLow(n: bv64)
    ensures Lane(LowRounds(n), 0) == Swar8(Lane(n, 0)) && Lane(LowRounds(n), 8) == Swar8(Lane(n, 8))
    ensures Lane(LowRounds(n), 16) == Swar8(Lane(n, 16)) && Lane(LowRounds(n), 24) == Swar8(Lane(n, 24))
  {
  }

  lemma LowRoundsHigh(n: bv64)
    ensures Lane(LowRounds(n), 32) == Swar8(Lane(n, 32)) && Lane(LowRounds(n), 40) == Swar8(Lane(n, 40))
    ensures Lane(LowRounds(n), 48) == Swar8(Lane(n, 48)) && Lane(LowRounds(n), 56) == Swar8(Lane(n, 56))
  {
  }

  /** Round 3 adds neighbouring byte counts. */
  lemma Round3Low(y: bv64)
    requires Lane(y, 0) <= 8 && Lane(y, 8) <= 8 && Lane(y, 16) <= 8 && Lane(y, 24) <= 8
    ensures var v := Count(y, 0x00FF_00FF_00FF_00FF, 8);
      Lane(v, 0) as int == Lane(y, 0) as int + Lane(y, 8) as int && Lane(v, 0) <= 16
      && Lane(v, 16) as int == Lane(y, 16) as int + Lane(y, 24) as int && Lane(v, 16) <= 16
  {
  }

  lemma Round3High(y: bv64)
    requires Lane(y, 32) <= 8 && Lane(y, 40) <= 8 && Lane(y, 48) <= 8 && Lane(y, 56) <= 8
    ensures var v := Count(y, 0x00FF_00FF_00FF_00FF, 8);
      Lane(v, 32) as int == Lane(y, 32) as int + Lane(y, 40) as int && Lane(v, 32) <= 16
      && Lane(v, 48) as int == Lane(y, 48) as int + Lane(y, 56) as int && Lane(v, 48) <= 16
  {
  }

  /** Round 4 adds neighbouring 16-bit counts; only their low bytes matter. */
  lemma Round4(v: bv64)
    requires Lane(v, 0) <= 16 && Lane(v, 16) <= 16 && Lane(v, 32) <= 16 && Lane(v, 48) <= 16
    ensures var w := Count(v, 0x0000_FFFF_0000_FFFF, 16);
      Lane(w, 0) as int == Lane(v, 0) as int + Lane(v, 16) as int && Lane(w, 0) <= 32
      && Lane(w, 32) as int == Lane(v, 32) as int + Lane(v, 48) as int && Lane(w, 32) <= 32
  {
  }

  /** Round 5 adds the two 32-bit counts. */
  lemma Round5(w: bv64)
    requires Lane(w, 0) <= 32 && Lane(w, 32) <= 32
    ensures var z := Count(w, 0x0000_0000_FFFF_FFFF, 32);
      Lane(z, 0) as int == Lane(w, 0) as int + Lane(w, 32) as int && Lane(z, 0) <= 64
  {
  }

  function HighRounds(y: bv64): bv64
  {
    Count(Count(Count(y, 0x00FF_00FF_00FF_00FF, 8), 0x0000_FFFF_0000_FFFF, 16), 0x0000_0000_FFFF_FFFF, 32)
  }

  /** After the first three rounds every byte holds the population count of
      the same byte of `n`. */
  lemma LowRoundsCount(n: bv64)
    ensures var y := LowRounds(n);
      Lane(y, 0) as int == Popcount8(Lane(n, 0)) && Lane(y, 8) as int == Popcount8(Lane(n, 8))
      && Lane(y, 16) as int == Popcount8(Lane(n, 16)) && Lane(y, 24) as int == Popcount8(Lane(n, 24))
      && Lane(y, 32) as int == Popcount8(Lane(n, 32)) && Lane(y, 40) as int == Popcount8(Lane(n, 40))
      && Lane(y, 48) as int == Popcount8(Lane(n, 48)) && Lane(y, 56) as int == Popcount8(Lane(n, 56))
    ensures var y := LowRounds(n);
      Lane(y, 0) <= 8 && Lane(y, 8) <= 8 && Lane(y, 16) <= 8 && Lane(y, 24) <= 8
      && Lane(y, 32) <= 8 && Lane(y, 40) <= 8 && Lane(y, 48) <= 8 && Lane(y, 56) <= 8
  {
    var y := LowRounds(n);
    LowRoundsLow(n);
    LowRoundsHigh(n);
    Swar8Count(Lane(y, 0), Lane(n, 0)); Swar8Count(Lane(y, 8), Lane(n, 8));
    Swar8Count(Lane(y, 16), Lane(n, 16)); Swar8Count(Lane(y, 24), Lane(n, 24));
    Swar8Count(Lane(y, 32), Lane(n, 32)); Swar8Count(Lane(y, 40), Lane(n, 40));
    Swar8Count(Lane(y, 48), Lane(n, 48)); Swar8Count(Lane(y, 56), Lane(n, 56));
  }

  /** The last three rounds add up eight byte counts of at most 8 each. */
  lemma HighRoundsSum(y: bv64)
    requires Lane(y, 0) <= 8 && Lane(y, 8) <= 8 && Lane(y, 16) <= 8 && Lane(y, 24) <= 8
    requires Lane(y, 32) <= 8 && Lane(y, 40) <= 8 && Lane(y, 48) <= 8 && Lane(y, 56) <= 8
    ensures Int8OfWord(HighRounds(y)) == Lane(y, 0) as int + Lane(y, 8) as int + Lane(y, 16) as int
      + Lane(y, 24) as int + Lane(y, 32) as int + Lane(y, 40) as int + Lane(y, 48) as int + Lane(y, 56) as int
  {
    Round3Low(y);
    Round3High(y);
    TopRounds(Count(y, 0x00FF_00FF_00FF_00FF, 8));
  }

  /** Rounds 4 and 5 add up four 16-bit counts of at most 16 each. */
  lemma TopRounds(v: bv64)
    requires Lane(v, 0) <= 16 && Lane(v, 16) <= 16 && Lane(v, 32) <= 16 && Lane(v, 48) <= 16
    ensures Int8OfWord(Count(Count(v, 0x0000_FFFF_0000_FFFF, 16), 0x0000_0000_FFFF_FFFF, 32))
      == Lane(v, 0) as int + Lane(v, 16) as int + Lane(v, 32) as int + Lane(v, 48) as int
  {
    Round4(v);
    Round5(Count(v, 0x0000_FFFF_0000_FFFF, 16));
  }

  /** The parallel bit count is the population count. */
  lemma ParallelIsPopcount(n: bv64)
    ensures ParallelBitcount(n) == Popcount64(n)
  {
    assert ParallelBitcount(n) == Int8OfWord(HighRounds(LowRounds(n)));
    LowRoundsCount(n);
    HighRoundsSum(LowRounds(n));
    Popcount64Lanes(n);
  }

  /** `__builtin_popcountl`, converted to a signed byte. */
  function GccBuiltinBitcount(n: bv64): (c: int)
    ensures c == Popcount64(n)
  {
    Int8Of(Popcount64(n))
  }

  /** The two bit counting routines the pointer `bitcount_func` may name. */
  datatype BitcountFunc = GccBuiltin | Parallel

  /** The routine installed: the compiler builtin. */
  const bitcountFunc: BitcountFunc := GccBuiltin

  function Bitcount(f: BitcountFunc, n: bv64): (c: int)
  {
    match f
    case GccBuiltin => GccBuiltinBitcount(n)
    case Parallel => ParallelBitcount(n)
  }

  /** Either routine counts the ones of the word. */
  lemma BitcountChoice(f: BitcountFunc, n: bv64)
    ensures Bitcount(f, n) == Popcount64(n)
    ensures 0 <= Bitcount(f, n) <= 64
  {
    if f == Parallel {
      ParallelIsPopcount(n);
    }
  }

  /** The `(uint8_t)` conversion of an integer. */
  function Uint8Of(v: int): (r: nat)
    ensures r < 256 && (r - v) % 256 == 0
  {
    v % 256
  }

  /** The Hamming distance of two 64-bit fields. */
  function GetHammingDistanceOpt(fieldA: bv64, fieldB: bv64): (d: nat)
  {
    var curXor := fieldA ^ fieldB;
    Uint8Of(Bitcount(bitcountFunc, curXor))
  }

  /** The word distance is the field distance of the two words' bytes, at
      most 64, zero exactly on equal words, and symmetric. */
  lemma HammingDistanceOpt(a: bv64, b: bv64)
    ensures GetHammingDistanceOpt(a, b) == Distance(Bytes64(a), Bytes64(b)) <= 64
    ensures GetHammingDistanceOpt(a, b) == 0 <==> a == b
    ensures GetHammingDistanceOpt(a, b) == GetHammingDistanceOpt(b, a)
  {
    OptIsDistance(a, b);
    OptZero(a, b);
    OptSymmetric(a, b);
  }

  lemma OptIsDistance(a: bv64, b: bv64)
    ensures GetHammingDistanceOpt(a, b) == Distance(Bytes64(a), Bytes64(b)) <= 64
  {
    BitcountChoice(bitcountFunc, a ^ b);
    WordDistance(a, b);
  }

  lemma OptZero(a: bv64, b: bv64)
    ensures GetHammingDistanceOpt(a, b) == 0 <==> a == b
  {
    OptIsDistance(a, b);
    DistanceZero(Bytes64(a), Bytes64(b));
    if Bytes64(a) == Bytes64(b) {
      Bytes64Injective(a, b);
    }
  }

  lemma OptSymmetric(a: bv64, b: bv64)
    ensures GetHammingDistanceOpt(a, b) == GetHammingDistanceOpt(b, a)
  {
    assert a ^ b == b ^ a;
  }
}
