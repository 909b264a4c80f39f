/**
 * What the checksum of `calculate_crc_from_file_bitwise` (src/crcbit.c)
 * means, and where the loop as written departs from it.
 *
 * When the generator fits the XOR window of `crunch` wherever it stands,
 * the remainder is the remainder of GF(2) long division of the augmented
 * message by the generator.  For degree 3 it does not fit: the window is
 * one byte and the generator spills into the next one, so the remainder
 * byte is never touched: the checksum is zero whenever that byte starts
 * out zero.  A window one
 * byte wider (Crc3Wide) gives the intended CRC-3.  Separately, on the last
 * chunk of a file longer than the buffer the loop as written leaves bytes
 * of the previous chunk where the remainder should start from zero.
 */
module CrcBitMeaning {
  import opened Bits
  import opened CrcTypes
  import opened Division
  import opened CrcBit
  import opened CrunchTheory
  import opened CrcBitFile

  // ---------------------------------------------------------------------
  // The generator
  // ---------------------------------------------------------------------

  /** The generator polynomial: the degree + 1 bits of the coefficient
      bytes from the leading one on. */
  function Generator(p: BitParam): (g: seq<bool>)
    requires p.degree + 1 <= 8 * |p.coeff|
    ensures |g| == p.degree + 1
    ensures forall i :: 0 <= i <= p.degree ==> g[i] == BitsOf(p.coeff)[i]
  {
    BitsOf(p.coeff)[..p.degree + 1]
  }

  /** The coefficient bytes hold the generator and nothing after it. */
  predicate Trimmed(p: BitParam)
  {
    p.degree + 1 <= 8 * |p.coeff|
    && forall i :: p.degree + 1 <= i < 8 * |p.coeff| ==> !BitsOf(p.coeff)[i]
  }

  /** The generator window fits the generator wherever it stands: at most
      8 * |coeff| - 7 bits, as `crunch` XORs whole bytes from the byte of
      the tested bit on. */
  predicate Fitting(p: BitParam)
  {
    p.degree + 8 <= 8 * |p.coeff|
  }

  /** The coefficient bytes at the front of a zero buffer are the generator
      at bit 0. */
  lemma PlaceTrimmed(p: BitParam, n: nat)
    requires Trimmed(p) && 8 * |p.coeff| <= n
    ensures Place(BitsOf(p.coeff), 0, n) == Place(Generator(p), 0, n)
  {
    var a, b := Place(BitsOf(p.coeff), 0, n), Place(Generator(p), 0, n);
    forall i | 0 <= i < n ensures a[i] == b[i] {
      if p.degree + 1 <= i < 8 * |p.coeff| {
        assert !BitsOf(p.coeff)[i];
      }
    }
  }

  /** When the generator fits the window, `crunch` over the bits of the
      data in the whole buffers is long division by the generator. */
  lemma WholeDivides(data: seq<Byte>, p: BitParam)
    requires Trimmed(p) && Fitting(p)
    ensures Fits(BitsOf(Augmented(data, p)), Generator(p), 0, 8 * |data|)
    ensures Room(Whole(data, p), |p.coeff|, 0, 8 * |data|)
    ensures Crunched(Whole(data, p), |p.coeff|, 0, 8 * |data|).file
         == LongDivision(BitsOf(Augmented(data, p)), Generator(p), 0, 8 * |data|)
  {
    WholeRoom(data, p, |data|);
    PlaceTrimmed(p, 8 * (|data| + ChecksumSize(p.degree) + 1));
    CrunchedDivides(Whole(data, p), |p.coeff|, Generator(p), 0, 8 * |data|);
  }

  /** When the generator fits the window, `crunch` over the whole message
      leaves in the file buffer what long division by the generator
      leaves. */
  lemma MessageDivides(data: seq<Byte>, p: BitParam)
    requires Trimmed(p) && Fitting(p)
    ensures Fits(BitsOf(Augmented(data, p)), Generator(p), 0, 8 * |data|)
    ensures BitsOf(Message(data, p, |data|)) == LongDivision(BitsOf(Augmented(data, p)), Generator(p), 0, 8 * |data|)
  {
    StateCrunched(data, p, |data|);
    MessageBits(data, p, |data|);
    WholeDivides(data, p);
  }

  /** The remainder bytes are the bytes of the message after the data, so
      their bits are the matching slice of the message's bits. */
  lemma RemainderSlice(data: seq<Byte>, p: BitParam, d: seq<bool>)
    requires BitsOf(Message(data, p, |data|)) == d
    ensures 8 * (|data| + ChecksumSize(p.degree)) <= |d|
    ensures BitsOf(Remainder(data, p)) == d[8 * |data|..8 * (|data| + ChecksumSize(p.degree))]
  {
    BitsOfSlice(Message(data, p, |data|), |data|, |data| + ChecksumSize(p.degree));
  }

  /** The checksum's meaning: when the generator fits the window, the
      remainder bytes are the bits that long division of the augmented
      message by the generator leaves after the message. */
  lemma CrcMeaning(data: seq<Byte>, p: BitParam)
    requires Trimmed(p) && Fitting(p)
    ensures Fits(BitsOf(Augmented(data, p)), Generator(p), 0, 8 * |data|)
    ensures BitsOf(Remainder(data, p))
         == LongDivision(BitsOf(Augmented(data, p)), Generator(p), 0, 8 * |data|)[8 * |data|..8 * (|data| + ChecksumSize(p.degree))]
  {
    MessageDivides(data, p);
    RemainderSlice(data, p, LongDivision(BitsOf(Augmented(data, p)), Generator(p), 0, 8 * |data|));
  }

  /** Long division leaves a true remainder: the augmented message and the
      division result differ by a multiple of the generator, and no bit of
      the message is left set. */
  lemma CrcIsRemainder(data: seq<Byte>, p: BitParam)
    requires Trimmed(p) && Fitting(p) && TopBitSet(p)
    ensures IsRemainder(BitsOf(Augmented(data, p)), Generator(p), 0, 8 * |data|,
                        LongDivision(BitsOf(Augmented(data, p)), Generator(p), 0, 8 * |data|),
                        Quotient(BitsOf(Augmented(data, p)), Generator(p), 0, 8 * |data|))
  {
    CrcMeaning(data, p);
    BitAt(p.coeff, 0, 0, 0);
    LongDivisionIsRemainder(BitsOf(Augmented(data, p)), Generator(p), 0, 8 * |data|);
  }

  /** A last coefficient byte 0x80 at the position of the degree: the
      generator ends in its top bit. */
  lemma TrimmedByLastByte(p: BitParam)
    requires 0 < |p.coeff| && p.degree == 8 * (|p.coeff| - 1) && p.coeff[|p.coeff| - 1] == 0x80
    ensures Trimmed(p)
  {
    var k := |p.coeff| - 1;
    forall i | p.degree + 1 <= i < 8 * |p.coeff| ensures !BitsOf(p.coeff)[i] {
      BitAt(p.coeff, i, k, i - 8 * k);
    }
  }

  /** The tables of crcbit.c from degree 8 on hold a trimmed generator that
      fits the window; the degree-3 entry does not fit it. */
  lemma TableFits(degree: nat)
    requires Supported(degree)
    ensures Trimmed(InitPolynomialOdd(degree).value)
    ensures Fitting(InitPolynomialOdd(degree).value) <==> degree != 3
  {
    var p: BitParam := InitPolynomialOdd(degree).value;
    if degree == 3 {
      forall i | 4 <= i < 8 ensures !BitsOf(p.coeff)[i] {
        BitAt(p.coeff, i, 0, i);
      }
    } else {
      TrimmedByLastByte(p);
    }
  }

  // ---------------------------------------------------------------------
  // Degree 3: the checksum is always zero
  // ---------------------------------------------------------------------

  /** The degree-3 entry of the table. */
  lemma Degree3Entry()
    ensures InitPolynomialOdd(3) == Some(CrcParam(3, [0xB0], [0x00], [0x00], false, false))
  {
  }

  /** With a one-byte window `crunch` never touches the byte after the
      message, so the degree-3 remainder is always the zero byte the
      message was augmented with. */
  lemma Degree3Remainder(data: seq<Byte>)
    requires 0 < |data|
    ensures Remainder(data, InitPolynomialOdd(3).value) == [0x00]
  {
    var p: BitParam := InitPolynomialOdd(3).value;
    MessageByteKept(data, p, |data|, |data|);
    assert Augmented(data, p)[|data|] == 0;
  }

  /** The checksum of crcbit.c for degree 3 is 0x00 for every non-empty
      file once the tail is cleared, and as written for every file that
      fits one buffer. */
  lemma Degree3AlwaysZero(data: seq<Byte>, bufSize: nat)
    requires 0 < |data| && 1 < bufSize
    ensures CrcOfFile(data, InitPolynomialOdd(3).value, bufSize) == Checksum([0x00])
    ensures |data| <= bufSize ==> AsWrittenCrc(data, InitPolynomialOdd(3).value, bufSize) == Checksum([0x00])
  {
    var p: BitParam := InitPolynomialOdd(3).value;
    Degree3Remainder(data);
    XorZerosOne(Remainder(data, p));
    assert Finish([0x00], p) == [0x00];
  }

  /** The file 00 00 00 01 00 00 with the degree-3 table and a four-byte
      buffer: the last chunk starts at message byte 3, so the byte after
      the file still holds the 0x01 the chunk before left there. */
  lemma Degree3StaleLeftover(data: seq<Byte>, p: BitParam)
    requires data == [0x00, 0x00, 0x00, 0x01, 0x00, 0x00] && p == InitPolynomialOdd(3).value
    ensures Leftover(data, p, 4) == [0x01]
  {
    assert FinalStart(6, 4, 1) == 3;
    OneByteLeftover(data, p, 4, 3);
    MessageByteKept(data, p, 3, 3);
    assert Augmented(data, p)[3] == 0x01;
  }

  /** With a one-byte checksum, the leftover is the message byte that the
      chunk before left one step of bufSize - polyBytes back from the end
      of the file, as long as that byte is still inside the old buffer. */
  lemma OneByteLeftover(data: seq<Byte>, p: BitParam, bufSize: nat, f: nat)
    requires ChecksumSize(p.degree) == 1 && |p.coeff| < bufSize < |data|
    requires f == FinalStart(|data|, bufSize, |p.coeff|) && |data| < f + bufSize
    ensures |data| - (bufSize - |p.coeff|) < |Message(data, p, f)|
    ensures Leftover(data, p, bufSize) == [Message(data, p, f)[|data| - (bufSize - |p.coeff|)]]
  {
    var m, k := Message(data, p, f), |data| - (bufSize - |p.coeff|);
    assert StaleTail(data, p, bufSize) == Resized(m[k..f + |p.coeff|], 2);
  }

  /** On a file longer than the buffer, the degree-3 checksum as written
      need not be zero: on that file the loop reports 0x01. */
  lemma Degree3StaleNonZero(data: seq<Byte>, p: BitParam)
    requires data == [0x00, 0x00, 0x00, 0x01, 0x00, 0x00] && p == InitPolynomialOdd(3).value
    ensures Leftover(data, p, 4) == [0x01]
    ensures AsWrittenCrc(data, p, 4) == Checksum([0x01])
  {
    Degree3StaleLeftover(data, p);
    Degree3Remainder(data);
    LeftoverPrinted(data, p, 4, 0x01);
  }

  /** With a zero one-byte remainder, no final XOR and no reflection, the
      loop as written prints the leftover byte. */
  lemma LeftoverPrinted(data: seq<Byte>, p: BitParam, bufSize: nat, e: Byte)
    requires ChecksumSize(p.degree) == 1 && |p.coeff| < bufSize && 0 < |data|
    requires p.finalXor == [0x00] && !p.reflectRemainder
    requires Remainder(data, p) == [0x00] && Leftover(data, p, bufSize) == [e]
    ensures AsWrittenCrc(data, p, bufSize) == Checksum([e])
  {
    assert XorBytes([0x00], [e]) == [e];
    assert Finish([e], p) == [e];
  }

  lemma XorZerosOne(r: seq<Byte>)
    requires |r| == 1
    ensures XorBytes(r, Zeros(1)) == r
  {
    var x := r[0];
    assert x ^ 0 == x;
  }

  /** The degree-3 record with a window of two bytes: poly_bytes is
      checksum_size + 1 for every degree. */
  const Crc3Wide: BitParam := CrcParam(3, [0xB0, 0x00], [0x00], [0x00], false, false)

  /** The wide record holds the same generator, x^3 + x + 1, and fits. */
  lemma Crc3WideFits()
    ensures Trimmed(Crc3Wide) && Fitting(Crc3Wide) && TopBitSet(Crc3Wide)
    ensures Generator(Crc3Wide) == [true, false, true, true]
  {
    var c := Crc3Wide.coeff;
    forall i | 4 <= i < 16 ensures !BitsOf(c)[i] {
      BitAt(c, i, i / 8, i % 8);
    }
    forall i | 0 <= i < 4 ensures BitsOf(c)[i] == [true, false, true, true][i] {
      BitAt(c, i, 0, i);
    }
  }

  /** The meaning of a one-byte checksum, with the generator named. */
  lemma OneByteMeaning(data: seq<Byte>, p: BitParam, g: seq<bool>)
    requires Trimmed(p) && Fitting(p) && ChecksumSize(p.degree) == 1
    requires Generator(p) == g
    ensures BitsOf(Remainder(data, p)) == LongDivision(BitsOf(Augmented(data, p)), g, 0, 8 * |data|)[8 * |data|..8 * |data| + 8]
  {
    CrcMeaning(data, p);
  }

  /** With the wide record, every file's remainder byte is what long
      division by x^3 + x + 1 leaves after the message. */
  lemma Crc3WideIsCrc(data: seq<Byte>)
    ensures BitsOf(Remainder(data, Crc3Wide))
         == LongDivision(BitsOf(Augmented(data, Crc3Wide)), [true, false, true, true], 0, 8 * |data|)[8 * |data|..8 * |data| + 8]
  {
    Crc3WideFits();
    OneByteMeaning(data, Crc3Wide, [true, false, true, true]);
  }

  /** Long division of 0x04 by x^3 + x + 1 leaves 0b111, which the wide
      record finds in its remainder byte. */
  lemma Crc3WideRemainder(data: seq<Byte>)
    requires data == [0x04]
    ensures Remainder(data, Crc3Wide) == [0xE0]
  {
    Crc3WideFits();
    CrcMeaning(data, Crc3Wide);
    var g := Generator(Crc3Wide);
    var e := Example3Bits();
    assert BitsOf(Augmented(data, Crc3Wide)) == e.0 by {
      assert Augmented(data, Crc3Wide) == [0x04, 0x00, 0x00];
      Example3Augmented();
    }
    Example3Division(e.0, g);
    var r := Remainder(data, Crc3Wide);
    assert BitsOf(r) == BitsOf([0xE0]) by {
      Example3Remainder();
    }
    BitsOfInjective(r, [0xE0]);
  }

  /** The CRC-3 of the byte 0x04 is 0b111 (0xE0 once left-aligned in the
      remainder byte) with the wide record, where the table of crcbit.c
      reports 0x00. */
  lemma Crc3Example(data: seq<Byte>, bufSize: nat)
    requires data == [0x04] && 2 < bufSize
    ensures CrcOfFile(data, Crc3Wide, bufSize) == Checksum([0xE0])
    ensures CrcOfFile(data, InitPolynomialOdd(3).value, bufSize) == Checksum([0x00])
  {
    Degree3AlwaysZero(data, bufSize);
    Crc3WideRemainder(data);
    assert Finish([0xE0], Crc3Wide) == [0xE0];
  }

  /** The bit strings of the example: the augmented message 0x04 0x00 0x00
      and the division result. */
  function Example3Bits(): (e: (seq<bool>, seq<bool>))
    ensures |e.0| == 24 && |e.1| == 24
  {
    (seq(24, i => i == 5), seq(24, i => 8 <= i < 11))
  }

  lemma Example3Augmented()
    ensures BitsOf([0x04, 0x00, 0x00]) == Example3Bits().0
  {
    var s: seq<Byte> := [0x04, 0x00, 0x00];
    forall i | 0 <= i < 24 ensures BitsOf(s)[i] == (i == 5) {
      BitAt(s, i, i / 8, i % 8);
    }
  }

  lemma Example3Remainder()
    ensures BitsOf([0xE0]) == Example3Bits().1[8..16]
  {
    var s: seq<Byte> := [0xE0];
    forall i | 0 <= i < 8 ensures BitsOf(s)[i] == (i < 3) {
      BitAt(s, i, 0, i);
    }
  }

  /** Long division of the example: steps at bits 5 and 7 subtract the
      generator, the others find a zero bit. */
  lemma Example3Division(f: seq<bool>, g: seq<bool>)
    requires f == Example3Bits().0 && g == [true, false, true, true]
    ensures Fits(f, g, 0, 8) && LongDivision(f, g, 0, 8) == Example3Bits().1
  {
    assert LongDivision(f, g, 0, 5) == f by {
      ZeroSteps(f, g, 0, 5);
    }
    var f6 := XorBits(f, Place(g, 5, 24));
    assert LongDivision(f, g, 0, 6) == f6;
    assert f6 == seq(24, i => i == 7 || i == 8);
    assert LongDivision(f, g, 0, 7) == f6;
    var f8 := XorBits(f6, Place(g, 7, 24));
    assert LongDivision(f, g, 0, 8) == f8;
    assert f8 == Example3Bits().1;
  }

  /** Steps at bits that are zero change nothing. */
  lemma {:induction false} ZeroSteps(f: seq<bool>, g: seq<bool>, lo: nat, hi: nat)
    requires Fits(f, g, lo, hi)
    requires forall i :: lo <= i < hi ==> !f[i]
    ensures LongDivision(f, g, lo, hi) == f
    decreases hi - lo
  {
    if hi > lo {
      ZeroSteps(f, g, lo, hi - 1);
    }
  }

  // ---------------------------------------------------------------------
  // The stale tail
  // ---------------------------------------------------------------------

  /** The finishing steps lose nothing: different remainders print
      differently. */
  lemma FinishInjective(r1: seq<Byte>, r2: seq<Byte>, p: BitParam)
    requires |r1| == ChecksumSize(p.degree) && |r2| == ChecksumSize(p.degree)
    ensures Finish(r1, p) == Finish(r2, p) <==> r1 == r2
  {
    var cs := ChecksumSize(p.degree);
    if Finish(r1, p) == Finish(r2, p) {
      var x1, x2 := XorPrefix(r1, p.finalXor, cs), XorPrefix(r2, p.finalXor, cs);
      var c1, c2 := CheckReflect(x1, p.reflectRemainder), CheckReflect(x2, p.reflectRemainder);
      assert c1 == c2 by {
        forall i | 0 <= i < cs ensures c1[i] == c2[i] {
          var k := if p.reflectRemainder then cs - 1 - i else i;
          assert Emitted(c1, p.reflectRemainder)[k] == c1[i];
          assert Emitted(c2, p.reflectRemainder)[k] == c2[i];
        }
      }
      if p.reflectRemainder {
        ReflectEachInvolutive(x1);
        ReflectEachInvolutive(x2);
      }
      XorPrefixInvolutive(r1, p.finalXor, cs);
      XorPrefixInvolutive(r2, p.finalXor, cs);
    }
  }

  /** The loop as written reports the checksum of the file exactly when no
      leftover byte lands on the remainder; in particular whenever the file
      fits one chunk. */
  lemma AsWrittenAgrees(data: seq<Byte>, p: BitParam, bufSize: nat)
    requires |p.coeff| < bufSize && 0 < |data|
    ensures AsWrittenCrc(data, p, bufSize) == CrcOfFile(data, p, bufSize)
        <==> Leftover(data, p, bufSize) == Zeros(ChecksumSize(p.degree))
    ensures |data| <= bufSize ==> AsWrittenCrc(data, p, bufSize) == CrcOfFile(data, p, bufSize)
  {
    var r, e := Remainder(data, p), Leftover(data, p, bufSize);
    FinishInjective(XorBytes(r, e), r, p);
    if XorBytes(r, e) == r {
      forall i | 0 <= i < |e| ensures e[i] == 0 {
        var a, b := r[i], e[i];
        assert a ^ b == a;
        assert b == a ^ a ^ b;
      }
    }
    if e == Zeros(ChecksumSize(p.degree)) {
      forall i | 0 <= i < |e| ensures XorBytes(r, e)[i] == r[i] {
        var a := r[i];
        assert a ^ 0 == a;
      }
    }
  }

  /** `crunch` over the first h bytes leaves every bit from the end of its
      last window on as the augmented message has it. */
  lemma MessageBitsKept(data: seq<Byte>, p: BitParam, h: nat, k: nat)
    requires 0 < h <= |data| && h + |p.coeff| <= k + 1
    ensures SameFrom(BitsOf(Message(data, p, h)), BitsOf(Augmented(data, p)), 8 * k)
  {
    StateCrunched(data, p, h);
    ByteStartOf(h - 1, 7);
    CrunchedFrame(Whole(data, p), |p.coeff|, 0, 8 * h, 8 * k);
    MessageBits(data, p, h);
  }

  /** Two byte strings whose bits agree on byte k agree on byte k. */
  lemma SameByte(m: seq<Byte>, a: seq<Byte>, k: nat)
    requires k < |m| && k < |a| && forall i :: 8 * k <= i < 8 * k + 8 ==> BitsOf(m)[i] == BitsOf(a)[i]
    ensures m[k] == a[k]
  {
    forall j | 0 <= j < 8 ensures BitOf(m[k], j) == BitOf(a[k], j) {
      BitAt(m, 8 * k + j, k, j);
      BitAt(a, 8 * k + j, k, j);
    }
    ByteFromBits(m[k], a[k]);
  }

  /** `crunch` over the first h bytes leaves every byte from the end of
      its last window on as the augmented message has it. */
  lemma MessageByteKept(data: seq<Byte>, p: BitParam, h: nat, k: nat)
    requires 0 < h <= |data| && h + |p.coeff| <= k + 1 && k < |data| + ChecksumSize(p.degree) + 1
    ensures Message(data, p, h)[k] == Augmented(data, p)[k]
  {
    MessageBitsKept(data, p, h, k);
    SameByte(Message(data, p, h), Augmented(data, p), k);
  }

  /** The file 00 00 00 01 00 with CRC-8 and a buffer of four bytes: the
      last chunk starts at message byte 2, so the byte after the file
      still holds message byte 3 from the chunk before, which `crunch`
      over the first two bytes has not reached. */
  lemma StaleLeftover(data: seq<Byte>, p: BitParam)
    requires data == [0x00, 0x00, 0x00, 0x01, 0x00] && p == InitPolynomialOdd(8).value
    ensures Leftover(data, p, 4) == [0x01]
  {
    assert FinalStart(5, 4, 2) == 2;
    var m := Message(data, p, 2);
    MessageByteKept(data, p, 2, 3);
    assert Augmented(data, p)[3] == 0x01;
    assert StaleTail(data, p, 4) == Resized(m[3..4], 2);
  }

  /** On that file the loop as written reports a checksum other than the
      CRC of the file. */
  lemma StaleExample(data: seq<Byte>, p: BitParam)
    requires data == [0x00, 0x00, 0x00, 0x01, 0x00] && p == InitPolynomialOdd(8).value
    ensures Leftover(data, p, 4) == [0x01]
    ensures AsWrittenCrc(data, p, 4) != CrcOfFile(data, p, 4)
  {
    StaleLeftover(data, p);
    assert Leftover(data, p, 4)[0] != Zeros(1)[0];
    AsWrittenAgrees(data, p, 4);
  }
}
