/**
 * The parameter record shared by both engines (`crc_param_t`) and the ways
 * its byte fields are read: as a byte string through the `u_8` member, or
 * as a little-endian integer through `u_16`, `u_32` or `u_64`.
 */
module CrcTypes {
  import opened Bits

  datatype Option<T> = None | Some(value: T)

  /** One set of CRC parameters: the degree, the generator coefficients,
      the initial and final XOR values (the bytes an initialiser or table
      supplies) and the two reflection flags (a non-zero byte is `true`). */
  datatype CrcParam = CrcParam(degree: nat, coeff: seq<Byte>, initialXor: seq<Byte>,
                               finalXor: seq<Byte>, reflectInput: bool, reflectRemainder: bool)

  /** The checksum widths the program offers. */
  predicate Supported(degree: nat)
  {
    degree == 3 || degree == 8 || degree == 16 || degree == 32 || degree == 64
  }

  /** `checksum_size`: the number of remainder bytes, one for a degree
      below 8. */
  function ChecksumSize(degree: nat): (cs: nat)
    ensures 1 <= cs
    ensures degree < 8 ==> cs == 1
    ensures 8 <= degree ==> 8 * cs <= degree < 8 * cs + 8
  {
    if degree / 8 == 0 then 1 else degree / 8
  }

  /** `poly_bytes`: the width of the generator window, one byte more than
      the checksum from degree 8 on, a single byte below. */
  function PolyBytes(degree: nat): (pb: nat)
    ensures degree < 8 ==> pb == 1
    ensures 8 <= degree ==> pb == ChecksumSize(degree) + 1 && degree < 8 * pb - 7 + 8
  {
    if degree / 8 == 0 then 1 else ChecksumSize(degree) + 1
  }

  /** The sizes a record must have for the bit-serial engine: the
      coefficients fill the generator window, the XOR values the checksum. */
  predicate WellSized(p: CrcParam)
  {
    |p.coeff| == PolyBytes(p.degree)
    && |p.initialXor| == ChecksumSize(p.degree) && |p.finalXor| == ChecksumSize(p.degree)
  }

  /** The sizes the bit-serial engine works with: XOR values of
      checksum_size bytes and a generator window of checksum_size or one
      more bytes.  The tables of src/crcbit.c have the window width
      `poly_bytes`; a window one byte wider than the checksum is what a
      degree below 8 needs (see CrcBitMeaning.Crc3Wide). */
  predicate Layout(p: CrcParam)
  {
    var cs := ChecksumSize(p.degree);
    |p.initialXor| == cs && |p.finalXor| == cs && cs <= |p.coeff| <= cs + 1
  }

  /** Records with the sizes the bit-serial engine works with. */
  type BitParam = p: CrcParam | Layout(p) witness CrcParam(0, [0], [0], [0], false, false)

  /** The leading coefficient (the top bit of the first byte) is set. */
  predicate TopBitSet(p: CrcParam)
  {
    0 < |p.coeff| && p.coeff[0] & 0x80 != 0
  }

  /** `PARAM_SPACE`: the size of the `u_8_field` member of the union. */
  const ParamSpace: nat := 16

  /** The storage of a union member initialised from `s`: the listed bytes,
      then zeros. */
  function Field(s: seq<Byte>): (f: seq<Byte>)
    requires |s| <= ParamSpace
    ensures |f| == ParamSpace && f[..|s|] == s
    ensures forall i :: |s| <= i < ParamSpace ==> f[i] == 0
  {
    s + Zeros(ParamSpace - |s|)
  }

  /** The value of a byte string, first byte most significant. */
  function BigEndianValue(s: seq<Byte>): (v: nat)
  {
    if |s| == 0 then 0 else BigEndianValue(s[..|s| - 1]) * 256 + s[|s| - 1] as nat
  }

  /** The value of a byte string, first byte least significant. */
  function LittleEndianValue(s: seq<Byte>): (v: nat)
  {
    if |s| == 0 then 0 else s[0] as nat + 256 * LittleEndianValue(s[1..])
  }

  function Pow2(k: nat): (r: nat)
    ensures 0 < r
  {
    if k == 0 then 1 else 2 * Pow2(k - 1)
  }

  /** An `n`-byte string has a value below 2^(8n), in either byte order. */
  lemma ValueBound(s: seq<Byte>)
    ensures BigEndianValue(s) < Pow2(8 * |s|)
    ensures LittleEndianValue(s) < Pow2(8 * |s|)
  {
    BigEndianBound(s);
    LittleEndianBound(s);
  }

  lemma {:induction false} BigEndianBound(s: seq<Byte>)
    ensures BigEndianValue(s) < Pow2(8 * |s|)
  {
    if |s| > 0 {
      BigEndianBound(s[..|s| - 1]);
      Pow2Add(8 * (|s| - 1), 8);
      assert Pow2(8) == 256;
    }
  }

  lemma {:induction false} LittleEndianBound(s: seq<Byte>)
    ensures LittleEndianValue(s) < Pow2(8 * |s|)
  {
    if |s| > 0 {
      LittleEndianBound(s[1..]);
      Pow2Add(8, 8 * (|s| - 1));
      assert Pow2(8) == 256;
    }
  }

  lemma {:induction false} Pow2Add(a: nat, b: nat)
    ensures Pow2(a + b) == Pow2(a) * Pow2(b)
  {
    if b > 0 {
      Pow2Add(a, b - 1);
    }
  }

  /** Reading the reversed bytes big-endian gives the little-endian value. */
  lemma {:induction false} ReverseValue(s: seq<Byte>)
    ensures BigEndianValue(Reverse(s)) == LittleEndianValue(s)
  {
    if |s| > 0 {
      ReverseValue(s[1..]);
      assert Reverse(s)[..|s| - 1] == Reverse(s[1..]);
    }
  }

  /** `u_16` on a little-endian host: the first two bytes of the field,
      the first one least significant. */
  function U16(f: seq<Byte>): (x: bv16)
    requires 2 <= |f|
  {
    (f[0] as bv16) | ((f[1] as bv16) << 8)
  }

  /** Read most significant byte first, the value of `u_16` is the second
      byte of the field, then the first. */
  lemma U16Bytes(f: seq<Byte>)
    requires 2 <= |f|
    ensures BigEndian16(U16(f)) == [f[1], f[0]]
  {
  }
}
