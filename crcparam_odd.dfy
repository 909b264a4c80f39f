/**
 * The parameter records of include/crcparam_odd.h, in the "odd" encoding:
 * the generator keeps its x^degree coefficient and is shifted left by seven
 * bits, most significant byte first, so that it fills `degree / 8 + 1`
 * bytes whose first bit is the leading coefficient.
 */
module CrcParamOdd {
  import opened Bits
  import opened CrcTypes

  const Crc3Wikipedia: CrcParam := CrcParam(3, [0xB0], [0x00], [0x00], false, false)

  const Crc8Ccitt: CrcParam := CrcParam(8, [0x83, 0x80], [0x00], [0x00], false, false)

  const Crc16CcittFalse: CrcParam :=
    CrcParam(16, [0x88, 0x10, 0x80], [0xFF, 0xFF], [0x00, 0x00], false, false)

  const Crc16Kermit: CrcParam :=
    CrcParam(16, [0x88, 0x10, 0x80], [0x00, 0x00], [0x00, 0x00], true, true)

  const Crc32: CrcParam :=
    CrcParam(32, [0x82, 0x60, 0x8E, 0xDB, 0x80], [0xFF, 0xFF, 0xFF, 0xFF], [0xFF, 0xFF, 0xFF, 0xFF],
             true, true)

  const Crc64Iso: CrcParam :=
    CrcParam(64, [0x80, 0x00, 0x00, 0x00, 0x00, 0x00, 0x00, 0x0D, 0x80], Zeros(8), Zeros(8), false, false)

  /** The `CRC_n_POLY_PARAM` mapping: the record chosen for each degree. */
  function PolyParam(degree: nat): (r: Option<CrcParam>)
    ensures r.Some? <==> Supported(degree)
    ensures r.Some? ==> r.value.degree == degree && WellSized(r.value) && TopBitSet(r.value)
    ensures degree == 16 ==> r == Some(Crc16Kermit)
  {
    if degree == 3 then Some(Crc3Wikipedia)
    else if degree == 8 then Some(Crc8Ccitt)
    else if degree == 16 then Some(Crc16Kermit)
    else if degree == 32 then Some(Crc32)
    else if degree == 64 then Some(Crc64Iso)
    else None
  }

  /** The generator polynomials without their x^degree term, as they are
      usually published: x^3+x+1, x^8+x^2+x+1, x^16+x^12+x^5+1, the
      CRC-32 of clause 3.2.9 of IEEE 802.3, and x^64+x^4+x^3+x+1 of
      ISO 3309. */
  function Published(degree: nat): nat
  {
    if degree == 3 then 0x3
    else if degree == 8 then 0x07
    else if degree == 16 then 0x1021
    else if degree == 32 then 0x04C1_1DB7
    else if degree == 64 then 0x1B
    else 0
  }

  /** The odd encoding: from degree 8 on, the coefficient bytes read
      big-endian are the full generator, x^degree included, shifted left by
      seven bits; the degree-3 record is shifted by four bits instead. */
  lemma OddEncoding(degree: nat)
    requires Supported(degree)
    ensures Published(degree) < Pow2(degree)
    ensures 8 <= degree ==> BigEndianValue(PolyParam(degree).value.coeff) == (Pow2(degree) + Published(degree)) * Pow2(7)
    ensures degree == 3 ==> BigEndianValue(PolyParam(degree).value.coeff) == (Pow2(degree) + Published(degree)) * Pow2(4)
  {
    Powers();
    if degree == 3 {
      ValueSnoc([], 0xB0);
    } else if degree == 8 {
      Value8();
    } else if degree == 16 {
      Value16();
    } else if degree == 32 {
      Value32();
    } else {
      Value64();
    }
  }

  lemma Value8()
    ensures BigEndianValue(Crc8Ccitt.coeff) == 0x8380
  {
    ValueSnoc([], 0x83);
    ValueSnoc([0x83], 0x80);
  }

  lemma Value16()
    ensures BigEndianValue(Crc16Kermit.coeff) == 0x88_1080
  {
    ValueSnoc([], 0x88);
    ValueSnoc([0x88], 0x10);
    ValueSnoc([0x88, 0x10], 0x80);
  }

  lemma Value64()
    ensures BigEndianValue(Crc64Iso.coeff) == 0x80_0000_0000_0000_0D80
  {
    var z: seq<Byte> := [0x80];
    ValueSnoc([], 0x80);
    assert BigEndianValue(z) == 0x80;
    ValueSnoc(z, 0);
    z := z + [0];
    assert BigEndianValue(z) == 0x8000;
    ValueSnoc(z, 0);
    z := z + [0];
    assert BigEndianValue(z) == 0x80_0000;
    ValueSnoc(z, 0);
    z := z + [0];
    assert BigEndianValue(z) == 0x8000_0000;
    ValueSnoc(z, 0);
    z := z + [0];
    assert BigEndianValue(z) == 0x80_0000_0000;
    ValueSnoc(z, 0);
    z := z + [0];
    assert BigEndianValue(z) == 0x8000_0000_0000;
    ValueSnoc(z, 0);
    z := z + [0];
    assert BigEndianValue(z) == 0x80_0000_0000_0000;
    ValueSnoc(z, 0x0D);
    ValueSnoc(z + [0x0D], 0x80);
    assert z + [0x0D] + [0x80] == Crc64Iso.coeff;
  }

  lemma Value32()
    ensures BigEndianValue(Crc32.coeff) == 0x82_608E_DB80
  {
    var a: seq<Byte> := [0x82, 0x60];
    ValueSnoc([], 0x82);
    ValueSnoc([0x82], 0x60);
    assert BigEndianValue(a) == 0x8260;
    ValueSnoc(a, 0x8E);
    var b := a + [0x8E];
    assert BigEndianValue(b) == 0x82_608E;
    ValueSnoc(b, 0xDB);
    var c := b + [0xDB];
    assert BigEndianValue(c) == 0x8260_8EDB;
    ValueSnoc(c, 0x80);
    assert c + [0x80] == Crc32.coeff;
  }

  /** Appending a byte to a big-endian string. */
  lemma ValueSnoc(s: seq<Byte>, b: Byte)
    ensures BigEndianValue(s + [b]) == BigEndianValue(s) * 256 + b as nat
  {
    assert (s + [b])[..|s|] == s;
  }

  /** The powers of two the catalogues use. */
  lemma Powers()
    ensures Pow2(3) == 8 && Pow2(4) == 16 && Pow2(7) == 128 && Pow2(8) == 256
    ensures Pow2(16) == 0x1_0000 && Pow2(32) == 0x1_0000_0000 && Pow2(64) == 0x1_0000_0000_0000_0000
  {
    assert Pow2(8) == 256;
    Pow2Add(8, 8);
    Pow2Add(16, 16);
    Pow2Add(32, 32);
  }

  /** CRC-32 (clause 3.2.9 of IEEE 802.3) starts from and ends with all ones
      and reflects both its input and its remainder. */
  lemma Crc32Settings()
    ensures Crc32.initialXor == [0xFF, 0xFF, 0xFF, 0xFF] && Crc32.finalXor == Crc32.initialXor
    ensures Crc32.reflectInput && Crc32.reflectRemainder
  {
  }

  /** The two degree-16 records share their generator and differ in their
      starting value and reflection: CCITT-FALSE starts from all ones and
      reflects nothing, KERMIT starts from zero and reflects both ways. */
  lemma Crc16Variants()
    ensures Crc16CcittFalse.coeff == Crc16Kermit.coeff
    ensures WellSized(Crc16CcittFalse) && TopBitSet(Crc16CcittFalse)
    ensures Crc16CcittFalse.initialXor == [0xFF, 0xFF] && !Crc16CcittFalse.reflectInput && !Crc16CcittFalse.reflectRemainder
    ensures Crc16Kermit.initialXor == [0x00, 0x00] && Crc16Kermit.reflectInput && Crc16Kermit.reflectRemainder
    ensures Crc16CcittFalse.finalXor == Crc16Kermit.finalXor == [0x00, 0x00]
  {
  }
}
