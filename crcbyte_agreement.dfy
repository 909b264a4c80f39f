/**
 * The two engines agree at degree 16.  The byte-wise register of
 * src/crcbyte.c, fed one byte at a time with the generator 0x1021, holds
 * after every byte what long division of the augmented message leaves in
 * the 16 bits after that byte, XORed with the message bits that have not
 * been divided yet.  Once every byte has been fed those bits are zero, so
 * the register is the remainder the bit-serial engine of src/crcbit.c
 * computes with the CRC-16/CCITT-FALSE record of include/crcparam_odd.h.
 */
module CrcByteAgreement {
  import opened Bits
  import opened CrcTypes
  import opened Division
  import opened CrcBit
  import opened CrcBitFile
  import opened CrcBitMeaning
  import opened CrcByte
  import CrcParamOdd
  import CrcParamEven

  // ---------------------------------------------------------------------
  // Bits of the register
  // ---------------------------------------------------------------------

  /** The mask of bit `i` of a 16-bit register, counted from the most
      significant bit, the order in which the register leaves at the top. */
  function Mask16(i: nat): bv16
    requires i < 16
  {
    if i == 0 then 0x8000 else if i == 1 then 0x4000 else if i == 2 then 0x2000
    else if i == 3 then 0x1000 else if i == 4 then 0x0800 else if i == 5 then 0x0400
    else if i == 6 then 0x0200 else if i == 7 then 0x0100 else if i == 8 then 0x0080
    else if i == 9 then 0x0040 else if i == 10 then 0x0020 else if i == 11 then 0x0010
    else if i == 12 then 0x0008 else if i == 13 then 0x0004 else if i == 14 then 0x0002
    else 0x0001
  }

  /** Bit `i` of a 16-bit register. */
  predicate RegBit(x: bv16, i: nat)
    requires i < 16
  {
    x & Mask16(i) != 0
  }

  /** A mask with exactly one bit set. */
  predicate SingleBit(m: bv16)
  {
    m == 0x8000 || m == 0x4000 || m == 0x2000 || m == 0x1000 || m == 0x0800 || m == 0x0400 || m == 0x0200 || m == 0x0100
    || m == 0x0080 || m == 0x0040 || m == 0x0020 || m == 0x0010 || m == 0x0008 || m == 0x0004 || m == 0x0002 || m == 0x0001
  }

  /** Every mask of the table has one bit set; the next one down is this
      one shifted right, and the masks of the top half are the byte masks
      shifted up by eight. */
  lemma MaskTable(i: nat)
    requires i < 16
    ensures SingleBit(Mask16(i))
    ensures i < 15 ==> Mask16(i + 1) << 1 == Mask16(i) && Mask16(i + 1) != 0x8000
    ensures i < 8 ==> Mask16(i) == (TopMask(i) as bv16) << 8
    ensures 8 <= i ==> Mask16(i) == TopMask(i - 8) as bv16
  {
  }

  /** Testing one bit of an exclusive or. */
  lemma XorSingle(a: bv16, b: bv16, m: bv16)
    requires SingleBit(m)
    ensures ((a ^ b) & m != 0) == ((a & m != 0) != (b & m != 0))
  {
  }

  /** Testing one bit, other than the top one, of a register shifted left. */
  lemma ShiftSingle(x: bv16, m: bv16)
    requires SingleBit(m) && m != 0x8000
    ensures ((x << 1) & (m << 1) != 0) == (x & m != 0)
  {
  }

  /** Testing a bit of the top half against a byte mask. */
  lemma HighSingle(x: bv16, t: Byte)
    ensures (((x >> 8) as Byte) & t != 0) == (x & ((t as bv16) << 8) != 0)
  {
  }

  /** Testing a bit of the low half against a byte mask. */
  lemma LowSingle(x: bv16, t: Byte)
    ensures (((x & 0xFF) as Byte) & t != 0) == (x & (t as bv16) != 0)
  {
  }

  /** A byte shifted into the top half: the bits of the top half are the
      byte's, the low half is clear. */
  lemma ByteSingle(b: Byte, t: Byte)
    ensures (((b as bv16) << 8) & ((t as bv16) << 8) != 0) == (b & t != 0)
    ensures ((b as bv16) << 8) & (t as bv16) == 0
  {
  }

  /** Shifting left moves every bit one place up. */
  lemma ShiftBit(x: bv16, i: nat)
    requires i < 15
    ensures RegBit(x << 1, i) == RegBit(x, i + 1)
  {
    MaskTable(i);
    ShiftSingle(x, Mask16(i + 1));
  }

  /** Bit `i` of an exclusive or. */
  lemma XorRegBit(a: bv16, b: bv16, i: nat)
    requires i < 16
    ensures RegBit(a ^ b, i) == (RegBit(a, i) != RegBit(b, i))
  {
    MaskTable(i);
    XorSingle(a, b, Mask16(i));
  }

  /** A byte XORed into the top half sets the top eight bits. */
  lemma ByteRegBit(b: Byte, i: nat)
    requires i < 16
    ensures RegBit((b as bv16) << 8, i) == (i < 8 && BitOf(b, i))
  {
    MaskTable(i);
    if i < 8 {
      ByteSingle(b, TopMask(i));
    } else {
      ByteSingle(b, TopMask(i - 8));
    }
  }

  /** The register read most significant byte first has the register's
      bits in order. */
  lemma RegisterBits(x: bv16, i: nat)
    requires i < 16
    ensures BitsOf(BigEndian16(x))[i] == RegBit(x, i)
  {
    var be := BigEndian16(x);
    if i < 8 {
      BitAt(be, i, 0, i);
      HalfBit(x, be[0], i, i);
    } else {
      BitAt(be, i, 1, i - 8);
      HalfBit(x, be[1], i, i - 8);
    }
  }

  /** Bit j of one half of the register is bit i of the register. */
  lemma HalfBit(x: bv16, h: Byte, i: nat, j: nat)
    requires i < 16 && (i < 8 ==> j == i && h == (x >> 8) as Byte) && (8 <= i ==> j == i - 8 && h == (x & 0xFF) as Byte)
    ensures BitOf(h, j) == RegBit(x, i)
  {
    MaskTable(i);
    if i < 8 {
      HighSingle(x, TopMask(j));
    } else {
      LowSingle(x, TopMask(j));
    }
  }

  /** The bit shifted in at the bottom is clear. */
  lemma ShiftInLow(x: bv16)
    ensures !RegBit(x << 1, 15)
  {
  }

  // ---------------------------------------------------------------------
  // The register against long division
  // ---------------------------------------------------------------------

  /** `g` is the generator whose terms below the leading one are the bits
      of the register value `poly`. */
  predicate GeneratorOf(g: seq<bool>, poly: bv16)
  {
    |g| == 17 && g[0] && forall i {:trigger RegBit(poly, i)} :: 0 <= i < 16 ==> g[i + 1] == RegBit(poly, i)
  }

  /** The register holds the 16 bits of the division `d` that follow bit
      `t`, XORed with the message bits `m` there that have not yet been fed
      into the register (those from bit `fed` on). */
  predicate Agrees(x: bv16, d: seq<bool>, m: seq<bool>, t: nat, fed: nat)
    requires t + 16 <= |d| == |m|
  {
    forall i {:trigger RegBit(x, i)} :: 0 <= i < 16 ==> RegBit(x, i) == (d[t + i] != (fed <= t + i && m[t + i]))
  }

  /** One step of the inner loop, bit by bit: the register moves up one
      place, and the generator's bits are added when the top bit was set. */
  lemma RegisterStep(x: bv16, poly: bv16, i: nat)
    requires i < 16
    ensures RegBit(ShiftStep(x, poly), i) == ((i < 15 && RegBit(x, i + 1)) != (RegBit(x, 0) && RegBit(poly, i)))
  {
    ShiftedBit(x, i);
    if RegBit(x, 0) {
      TopSet(x, poly);
      XorRegBit(x << 1, poly, i);
    } else {
      TopClear(x, poly);
    }
  }

  /** Bit `i` of the register shifted left. */
  lemma ShiftedBit(x: bv16, i: nat)
    requires i < 16
    ensures RegBit(x << 1, i) == (i < 15 && RegBit(x, i + 1))
  {
    if i < 15 {
      ShiftBit(x, i);
    } else {
      ShiftInLow(x);
    }
  }

  lemma TopSet(x: bv16, poly: bv16)
    requires RegBit(x, 0)
    ensures ShiftStep(x, poly) == (x << 1) ^ poly
  {
  }

  lemma TopClear(x: bv16, poly: bv16)
    requires !RegBit(x, 0)
    ensures ShiftStep(x, poly) == x << 1
  {
  }

  /** One step of the division, at the 16 bits after the tested one. */
  lemma DivStepAt(d: seq<bool>, g: seq<bool>, t: nat, i: nat)
    requires |g| == 17 && t + 17 <= |d| && i < 16
    ensures DivStep(d, g, t)[t + 1 + i] == (d[t + 1 + i] != (d[t] && g[i + 1]))
  {
    assert Place(g, t, |d|)[t + 1 + i] == g[i + 1];
  }

  /** One step of the inner loop is one step of the division: when the top
      bit is set the generator is subtracted at that bit. */
  lemma StepAgrees(x: bv16, d: seq<bool>, m: seq<bool>, g: seq<bool>, poly: bv16, t: nat, fed: nat)
    requires GeneratorOf(g, poly) && t + 17 <= |d| == |m| && t < fed <= t + 16
    requires Agrees(x, d, m, t, fed) && d[t + 16] == m[t + 16]
    ensures Agrees(ShiftStep(x, poly), DivStep(d, g, t), m, t + 1, fed)
  {
    var x', d' := ShiftStep(x, poly), DivStep(d, g, t);
    assert RegBit(x, 0) == d[t];
    forall i | 0 <= i < 16
      ensures RegBit(x', i) == (d'[t + 1 + i] != (fed <= t + 1 + i && m[t + 1 + i]))
    {
      RegisterStep(x, poly, i);
      DivStepAt(d, g, t, i);
    }
  }

  /** XORing a byte into the top half feeds its eight message bits. */
  lemma FeedAgrees(x: bv16, d: seq<bool>, m: seq<bool>, b: Byte, t: nat)
    requires t + 16 <= |d| == |m| && Agrees(x, d, m, t, t)
    requires forall j {:trigger BitOf(b, j)} :: 0 <= j < 8 ==> m[t + j] == BitOf(b, j)
    ensures Agrees(x ^ ((b as bv16) << 8), d, m, t, t + 8)
  {
    var y := x ^ ((b as bv16) << 8);
    forall i | 0 <= i < 16
      ensures RegBit(y, i) == (d[t + i] != (t + 8 <= t + i && m[t + i]))
    {
      XorRegBit(x, (b as bv16) << 8, i);
      ByteRegBit(b, i);
    }
  }

  /** The steps of long division before bit `t` leave the bits from
      `t + 16` on untouched. */
  lemma {:induction false} DivisionFrame(f: seq<bool>, g: seq<bool>, t: nat, j: nat)
    requires |g| == 17 && t + 16 <= j < |f|
    ensures Fits(f, g, 0, t) && LongDivision(f, g, 0, t)[j] == f[j]
  {
    if t > 0 {
      DivisionFrame(f, g, t - 1, j);
    }
  }

  /** The eight steps after a byte has been fed are the eight division
      steps at its bits. */
  lemma {:induction false} StepsAgree(x: bv16, f: seq<bool>, m: seq<bool>, g: seq<bool>, poly: bv16, t: nat, j: nat)
    requires GeneratorOf(g, poly) && |f| == |m| && t + 24 <= |f| && j <= 8
    requires forall k :: 16 <= k < |f| ==> f[k] == m[k]
    requires Fits(f, g, 0, t) && Agrees(x, LongDivision(f, g, 0, t), m, t, t + 8)
    ensures Fits(f, g, 0, t + j) && Agrees(Steps(x, poly, j), LongDivision(f, g, 0, t + j), m, t + j, t + 8)
  {
    if j > 0 {
      StepsAgree(x, f, m, g, poly, t, j - 1);
      var d := LongDivision(f, g, 0, t + j - 1);
      DivisionFrame(f, g, t + j - 1, t + j + 15);
      StepAgrees(Steps(x, poly, j - 1), d, m, g, poly, t + j - 1, t + 8);
    }
  }

  /** XORing byte `k` into the register feeds its bits. */
  lemma FedAgrees(x: bv16, ms: seq<Byte>, k: nat, t: nat, e: nat, d: seq<bool>, y: bv16)
    requires t == 8 * k && e == t + 8 && |d| == 8 * |ms| && e + 16 <= |d| && y == x ^ ((ms[k] as bv16) << 8)
    requires Agrees(x, d, BitsOf(ms), t, t)
    ensures Agrees(y, d, BitsOf(ms), t, e)
  {
    ByteBits(ms, k);
    FeedAgrees(x, d, BitsOf(ms), ms[k], t);
  }

  /** The eight steps after a byte has been fed, up to bit `e`. */
  lemma FedSteps(y: bv16, f: seq<bool>, m: seq<bool>, g: seq<bool>, poly: bv16, t: nat, e: nat, r: bv16)
    requires GeneratorOf(g, poly) && |f| == |m| && e == t + 8 && e + 16 <= |f| && r == Steps(y, poly, 8)
    requires forall k :: 16 <= k < |f| ==> f[k] == m[k]
    requires Fits(f, g, 0, t) && Agrees(y, LongDivision(f, g, 0, t), m, t, e)
    ensures Fits(f, g, 0, e) && Agrees(r, LongDivision(f, g, 0, e), m, e, e)
  {
    StepsAgree(y, f, m, g, poly, t, 8);
  }

  /** The bits of byte `k` in the bit string. */
  lemma ByteBits(ms: seq<Byte>, k: nat)
    requires k < |ms|
    ensures forall j {:trigger BitOf(ms[k], j)} :: 0 <= j < 8 ==> BitsOf(ms)[8 * k + j] == BitOf(ms[k], j)
  {
    forall j | 0 <= j < 8 ensures BitsOf(ms)[8 * k + j] == BitOf(ms[k], j) {
      BitAt(ms, 8 * k + j, k, j);
    }
  }

  /** After the first `k` bytes the register agrees with long division
      over their bits. */
  lemma {:induction false} UpdateAgrees(x0: bv16, data: seq<Byte>, f: seq<bool>, g: seq<bool>, poly: bv16, k: nat)
    requires GeneratorOf(g, poly) && |f| == 8 * (|data| + 3) && k <= |data|
    requires forall i :: 16 <= i < |f| ==> f[i] == BitsOf(data + Zeros(3))[i]
    requires Agrees(x0, f, BitsOf(data + Zeros(3)), 0, 0)
    ensures Fits(f, g, 0, 8 * k)
    ensures Agrees(Update(x0, data[..k], poly), LongDivision(f, g, 0, 8 * k), BitsOf(data + Zeros(3)), 8 * k, 8 * k)
  {
    if k == 0 {
      assert data[..0] == [];
    } else {
      UpdateAgrees(x0, data, f, g, poly, k - 1);
      assert data[..k][..k - 1] == data[..k - 1];
      assert data[..k][k - 1] == (data + Zeros(3))[k - 1];
      var ms, x := data + Zeros(3), Update(x0, data[..k - 1], poly);
      var y := x ^ ((ms[k - 1] as bv16) << 8);
      FedAgrees(x, ms, k - 1, 8 * (k - 1), 8 * k, LongDivision(f, g, 0, 8 * (k - 1)), y);
      FedSteps(y, f, BitsOf(ms), g, poly, 8 * (k - 1), 8 * k, Update(x0, data[..k], poly));
    }
  }

  // ---------------------------------------------------------------------
  // Degree 16
  // ---------------------------------------------------------------------

  /** The record src/crcbit.c selects for degree 16: the generator
      x^16 + x^12 + x^5 + 1 as the bytes 0x88 0x10 0x80, start all ones,
      no reflection. */
  const Odd16: BitParam := CrcParamOdd.Crc16CcittFalse

  /** Bit i + 1 of the coefficient bytes 0x88 0x10 0x80 is bit i of the
      register value 0x1021. */
  lemma CoefficientBit(i: nat)
    requires i < 16
    ensures BitsOf(Odd16.coeff)[i + 1] == RegBit(0x1021, i)
  {
    var c := Odd16.coeff;
    RegisterBits(0x1021, i);
    var be := BigEndian16(0x1021);
    assert be == [0x10, 0x21];
    BitAt(be, i, i / 8, i % 8);
    BitAt(c, i + 1, (i + 1) / 8, (i + 1) % 8);
    if i == 0 {} else if i == 1 {} else if i == 2 {} else if i == 3 {}
    else if i == 4 {} else if i == 5 {} else if i == 6 {} else if i == 7 {}
    else if i == 8 {} else if i == 9 {} else if i == 10 {} else if i == 11 {}
    else if i == 12 {} else if i == 13 {} else if i == 14 {} else {}
  }

  /** The degree-16 record of src/crcbit.c holds the generator the
      byte-wise engine reads as 0x1021, and nothing after it. */
  lemma Odd16Generator()
    ensures Trimmed(Odd16) && Fitting(Odd16)
    ensures GeneratorOf(Generator(Odd16), 0x1021)
  {
    var c := Odd16.coeff;
    forall i | Odd16.degree + 1 <= i < 8 * |c| ensures !BitsOf(c)[i] {
      BitAt(c, i, 2, i - 16);
    }
    BitAt(c, 0, 0, 0);
    forall i | 0 <= i < 16 ensures Generator(Odd16)[i + 1] == RegBit(0x1021, i) {
      CoefficientBit(i);
    }
  }

  /** The message `crunch` divides is the file followed by three zero
      bytes, with the first two bytes inverted by the initial XOR. */
  lemma Odd16Augmented(data: seq<Byte>)
    ensures |Augmented(data, Odd16)| == |data + Zeros(3)|
    ensures forall k :: 0 <= k < 2 ==> Augmented(data, Odd16)[k] == (data + Zeros(3))[k] ^ 0xFF
    ensures forall k :: 2 <= k < |data| + 3 ==> Augmented(data, Odd16)[k] == (data + Zeros(3))[k]
  {
    assert CheckReflect(data, false) == data;
  }

  /** Before any byte the register, all ones, agrees with the augmented
      message: its first 16 bits are the message's inverted. */
  lemma StartAgrees(data: seq<Byte>)
    ensures |BitsOf(Augmented(data, Odd16))| == |BitsOf(data + Zeros(3))| >= 16
    ensures Agrees(0xFFFF, BitsOf(Augmented(data, Odd16)), BitsOf(data + Zeros(3)), 0, 0)
  {
    var a, ms := Augmented(data, Odd16), data + Zeros(3);
    Odd16Augmented(data);
    forall i | 0 <= i < 16 ensures RegBit(0xFFFF, i) == (BitsOf(a)[i] != BitsOf(ms)[i]) {
      MaskTable(i);
      BitAt(a, i, i / 8, i % 8);
      BitAt(ms, i, i / 8, i % 8);
      XorBit(ms[i / 8], 0xFF, i % 8);
      TopMaskShift(i % 8);
    }
  }

  /** From bit 16 on the augmented message is the message. */
  lemma Odd16Frame(data: seq<Byte>)
    ensures |BitsOf(Augmented(data, Odd16))| == |BitsOf(data + Zeros(3))|
    ensures forall i :: 16 <= i < |BitsOf(Augmented(data, Odd16))| ==>
              BitsOf(Augmented(data, Odd16))[i] == BitsOf(data + Zeros(3))[i]
  {
    var a, ms := Augmented(data, Odd16), data + Zeros(3);
    Odd16Augmented(data);
    forall i | 16 <= i < |BitsOf(a)| ensures BitsOf(a)[i] == BitsOf(ms)[i] {
      BitAt(a, i, i / 8, i % 8);
      BitAt(ms, i, i / 8, i % 8);
    }
  }

  /** Fed every byte of the file from all ones with 0x1021, the register
      read most significant byte first is the remainder the bit-serial
      engine leaves with its degree-16 record. */
  lemma RegisterIsRemainder(data: seq<Byte>)
    ensures BigEndian16(Update(0xFFFF, data, 0x1021)) == Remainder(data, Odd16)
  {
    var n := |data|;
    var f, g := BitsOf(Augmented(data, Odd16)), Generator(Odd16);
    Odd16Generator();
    StartAgrees(data);
    Odd16Frame(data);
    UpdateAgrees(0xFFFF, data, f, g, 0x1021, n);
    assert data[..n] == data;
    var r := Update(0xFFFF, data, 0x1021);
    FinalRegister(data, r, LongDivision(f, g, 0, 8 * n));
    CrcMeaning(data, Odd16);
    BitsOfInjective(BigEndian16(r), Remainder(data, Odd16));
  }

  /** Once every byte has been fed, the bits after the file are the zero
      bytes, and the register is the division's 16 bits there. */
  lemma FinalRegister(data: seq<Byte>, r: bv16, d: seq<bool>)
    requires |d| == 8 * (|data| + 3)
    requires Agrees(r, d, BitsOf(data + Zeros(3)), 8 * |data|, 8 * |data|)
    ensures BitsOf(BigEndian16(r)) == d[8 * |data|..8 * |data| + 16]
  {
    var n, ms := |data|, data + Zeros(3);
    forall i | 0 <= i < 16 ensures BitsOf(BigEndian16(r))[i] == d[8 * n + i] {
      RegisterBits(r, i);
      BitAt(ms, 8 * n + i, n + i / 8, i % 8);
    }
  }

  /** With the degree-16 records of the two headers the engines print the
      same checksum: one call of `crc16_algorithm` over the whole file,
      starting from zero on the first call with no more fragments to come,
      gives the two bytes the bit engine computes for the file with the
      tail cleared, which is what src/crcbit.c prints for a file that fits
      its buffer (AsWrittenAgrees). */
  lemma EnginesAgree16(data: seq<Byte>, bufSize: nat)
    requires 0 < |data| && 3 < bufSize
    ensures InitPolynomialOdd(16).Some? && InitPolynomialOdd(16).value == Odd16
    ensures CrcOfFile(data, Odd16, bufSize)
         == Checksum(BigEndian16(Call(0x0000, true, data, CrcParamEven.PolyParam(16).value, false)))
  {
    CallIsUpdate(data, CrcParamEven.PolyParam(16).value);
    RegisterIsRemainder(data);
    FinishKeeps(Remainder(data, Odd16));
  }

  /** Output reflection agrees between the engines: the bit engine's
      byte-wise reflection printed last byte first gives the two bytes of
      the register that `reflect_bits_16` reflects as a whole. */
  lemma ReflectedOutput16(x: bv16)
    ensures Emitted(CheckReflect(BigEndian16(x), true), true) == BigEndian16(Reflect16(x))
  {
    EmittedReflection(BigEndian16(x));
    RegisterReflection16(x);
    BitsOfInjective(Emitted(ReflectEach(BigEndian16(x)), true), BigEndian16(Reflect16(x)));
  }

  /** The byte-wise call with the degree-16 record: start all ones, feed
      with 0x1021, final XOR zero, no reflection. */
  lemma CallIsUpdate(data: seq<Byte>, q: CrcParam)
    requires q == CrcParamEven.PolyParam(16).value
    ensures Stored(q) && Call(0x0000, true, data, q, false) == Update(0xFFFF, data, 0x1021)
  {
    CrcParamEven.Crc16Registers();
    assert CheckReflect(data, q.reflectInput) == data;
    assert Start(0x0000, true, q) == 0xFFFF;
    var r := Update(0xFFFF, data, 0x1021);
    assert Finalize(r, q, false) == r ^ 0x0000;
  }

  /** The degree-16 record of src/crcbit.c prints the remainder as it is. */
  lemma FinishKeeps(r: seq<Byte>)
    requires |r| == 2
    ensures Finish(r, Odd16) == r
  {
    assert XorPrefix(r, Odd16.finalXor, 2) == r;
  }

  /** The same holds for the file cut into fragments the way
      `calculate_crc16` feeds them: `more_fragments` set on all but the
      last. */
  lemma FragmentsAgree16(chunks: seq<seq<Byte>>, more: seq<bool>, bufSize: nat)
    requires 0 < |chunks| == |more| && 0 < |Concat(chunks)| && 3 < bufSize
    requires !more[|more| - 1] && forall i :: 0 <= i < |more| - 1 ==> more[i]
    ensures CrcOfFile(Concat(chunks), Odd16, bufSize)
         == Checksum(BigEndian16(Fragments(0x0000, true, chunks, more, CrcParamEven.PolyParam(16).value)))
  {
    FragmentsConcat(0x0000, true, chunks, more, CrcParamEven.PolyParam(16).value);
    EnginesAgree16(Concat(chunks), bufSize);
  }
}
