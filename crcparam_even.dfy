/**
 * The parameter records of include/crcparam_even.h, in the "even"
 * encoding: the generator without its x^degree coefficient, least
 * significant byte first, in the `u_8_field` member of the union so that
 * `u_16`, `u_32` and `u_64` read it as an integer on a little-endian host.
 */
module CrcParamEven {
  import opened Bits
  import opened CrcTypes
  import CrcParamOdd

  const Crc3Wikipedia: CrcParam := CrcParam(3, [0x03], [0x00], [0x00], false, false)

  const Crc8Ccitt: CrcParam := CrcParam(8, [0x07], [0x00], [0x00], false, false)

  const Crc16CcittFalse: CrcParam := CrcParam(16, [0x21, 0x10], [0xFF, 0xFF], [0x00, 0x00], false, false)

  const Crc32: CrcParam :=
    CrcParam(32, [0xB7, 0x1D, 0xC1, 0x04], [0xFF, 0xFF, 0xFF, 0xFF], [0xFF, 0xFF, 0xFF, 0xFF], true, true)

  const Crc64Iso: CrcParam :=
    CrcParam(64, [0x1B, 0x00, 0x00, 0x00, 0x00, 0x00, 0x00, 0x00], Zeros(8), Zeros(8), false, false)

  /** The `CRC_n_POLY_PARAM` mapping of this header; at degree 16 it picks
      CCITT-FALSE, where the odd header picks KERMIT. */
  function PolyParam(degree: nat): (r: Option<CrcParam>)
    ensures r.Some? <==> Supported(degree)
    ensures r.Some? ==> r.value.degree == degree
    ensures r.Some? ==> |r.value.coeff| == |r.value.initialXor| == |r.value.finalXor| == ChecksumSize(degree)
    ensures degree == 16 ==> r == Some(Crc16CcittFalse)
  {
    if degree == 3 then Some(Crc3Wikipedia)
    else if degree == 8 then Some(Crc8Ccitt)
    else if degree == 16 then Some(Crc16CcittFalse)
    else if degree == 32 then Some(Crc32)
    else if degree == 64 then Some(Crc64Iso)
    else None
  }

  /** Prepending a byte to a little-endian string. */
  lemma ValueCons(b: Byte, s: seq<Byte>)
    ensures LittleEndianValue([b] + s) == b as nat + 256 * LittleEndianValue(s)
  {
    assert ([b] + s)[1..] == s;
  }

  /** The even encoding: the coefficient bytes read little-endian are the
      published generator without its x^degree term. */
  lemma EvenEncoding(degree: nat)
    requires Supported(degree)
    ensures LittleEndianValue(PolyParam(degree).value.coeff) == CrcParamOdd.Published(degree)
  {
    if degree == 3 {
      ValueCons(0x03, []);
    } else if degree == 8 {
      ValueCons(0x07, []);
    } else if degree == 16 {
      ValueCons(0x10, []);
      ValueCons(0x21, [0x10]);
    } else if degree == 32 {
      var s: seq<Byte> := [0x04];
      ValueCons(0x04, []);
      ValueCons(0xC1, s);
      s := [0xC1] + s;
      assert LittleEndianValue(s) == 0x04C1;
      ValueCons(0x1D, s);
      s := [0x1D] + s;
      assert LittleEndianValue(s) == 0x04_C11D;
      ValueCons(0xB7, s);
      assert [0xB7] + s == Crc32.coeff;
    } else {
      LittleEndianZeros(7);
      ValueCons(0x1B, Zeros(7));
      assert [0x1B] + Zeros(7) == Crc64Iso.coeff;
    }
  }

  /** Zero bytes have the value zero. */
  lemma {:induction false} LittleEndianZeros(n: nat)
    ensures LittleEndianValue(Zeros(n)) == 0
  {
    if n > 0 {
      assert Zeros(n)[1..] == Zeros(n - 1);
      LittleEndianZeros(n - 1);
    }
  }

  /** The rule that relates the two headers: from degree 8 on, the odd
      coefficient bytes read big-endian equal the even coefficient `c` with
      the x^degree bit added and shifted left by seven, that is
      ((1 << degree) | c) << 7, where `c < 2^degree` makes the `|` a sum. */
  lemma EncodingsAgree(degree: nat)
    requires Supported(degree) && 8 <= degree
    ensures LittleEndianValue(PolyParam(degree).value.coeff) < Pow2(degree)
    ensures BigEndianValue(CrcParamOdd.PolyParam(degree).value.coeff)
         == (Pow2(degree) + LittleEndianValue(PolyParam(degree).value.coeff)) * Pow2(7)
  {
    EvenEncoding(degree);
    CrcParamOdd.OddEncoding(degree);
  }

  /** Degree 3 breaks the rule: its odd record is the full generator
      shifted by four bits, not seven (which would not fit one byte). */
  lemma Degree3Exception()
    ensures BigEndianValue(CrcParamOdd.Crc3Wikipedia.coeff) == (Pow2(3) + LittleEndianValue(Crc3Wikipedia.coeff)) * Pow2(4)
    ensures (Pow2(3) + LittleEndianValue(Crc3Wikipedia.coeff)) * Pow2(7) >= Pow2(8 * |CrcParamOdd.Crc3Wikipedia.coeff|)
  {
    EvenEncoding(3);
    CrcParamOdd.OddEncoding(3);
    CrcParamOdd.Powers();
  }

  /** CRC-32 here has the same starting and final values and reflection
      as the odd record. */
  lemma Crc32Matches()
    ensures Crc32.initialXor == Crc32.finalXor == CrcParamOdd.Crc32.initialXor == [0xFF, 0xFF, 0xFF, 0xFF]
    ensures Crc32.reflectInput && Crc32.reflectRemainder
    ensures Crc32.finalXor == CrcParamOdd.Crc32.finalXor
  {
  }

  /** The two headers map degree 16 to different CRCs: the same generator,
      but CCITT-FALSE here (start all ones, no reflection) and KERMIT in the
      odd header (start zero, both reflections). */
  lemma Degree16MappingsDiffer()
    ensures PolyParam(16).value.initialXor == [0xFF, 0xFF] && !PolyParam(16).value.reflectInput
    ensures CrcParamOdd.PolyParam(16).value.initialXor == [0x00, 0x00] && CrcParamOdd.PolyParam(16).value.reflectInput
    ensures PolyParam(16).value.initialXor == CrcParamOdd.Crc16CcittFalse.initialXor
    ensures PolyParam(16).value.finalXor == CrcParamOdd.Crc16CcittFalse.finalXor
  {
  }

  /** What the byte-wise engine reads through `u_16` from the degree-16
      record: generator 0x1021, start 0xFFFF, final XOR 0. */
  lemma Crc16Registers()
    ensures U16(Field(Crc16CcittFalse.coeff)) == 0x1021
    ensures U16(Field(Crc16CcittFalse.initialXor)) == 0xFFFF
    ensures U16(Field(Crc16CcittFalse.finalXor)) == 0x0000
  {
    var c, i, f := Field(Crc16CcittFalse.coeff), Field(Crc16CcittFalse.initialXor), Field(Crc16CcittFalse.finalXor);
    assert c[0] == 0x21 && c[1] == 0x10 && i[0] == 0xFF && i[1] == 0xFF && f[0] == 0 && f[1] == 0;
  }
}
