/**
 * The byte-wise engine of src/crcbyte.c: a 16-bit shift register that
 * takes the message a byte at a time (`crc16_algorithm`), the file loop
 * that feeds it fragment by fragment (`calculate_crc16`), and the
 * selection of the parameter record and of the routine by degree
 * (`init_polynomial_even`).
 *
 * The register is read from and written back to the caller's variable, so
 * a message may be fed in fragments; the initial XOR is applied only on the
 * first call the engine ever sees, and the final XOR and the reflection of
 * the register only on a call that says no more fragments follow.
 */
module CrcByte {
  import opened Bits
  import opened CrcTypes
  import CrcParamEven

  /** `UINT32_MAX`: a length at or above it is refused. */
  const Uint32Max: nat := 0xFFFF_FFFF

  /** `OPT_LEVEL_NONE`: the only level that computes anything. */
  const OptLevelNone: nat := 0

  /** `OPT_LEVEL_LUT`: no table engine exists; the level does nothing. */
  const OptLevelLut: nat := 1

  // ---------------------------------------------------------------------
  // The register
  // ---------------------------------------------------------------------

  /** The fields of a record fit the 16 bytes of the `data_u` union. */
  predicate Stored(p: CrcParam)
  {
    |p.coeff| <= ParamSpace && |p.initialXor| <= ParamSpace && |p.finalXor| <= ParamSpace
  }

  /** `coeff.u_16`: the generator without its x^16 term. */
  function Poly(p: CrcParam): bv16
    requires Stored(p)
  {
    U16(Field(p.coeff))
  }

  /** `initial_xor.u_16`. */
  function InitialXor16(p: CrcParam): bv16
    requires Stored(p)
  {
    U16(Field(p.initialXor))
  }

  /** `final_xor.u_16`. */
  function FinalXor16(p: CrcParam): bv16
    requires Stored(p)
  {
    U16(Field(p.finalXor))
  }

  /** One step of the inner loop: shift the register left by one bit and
      subtract the generator when the bit shifted out was set. */
  function ShiftStep(crc: bv16, poly: bv16): bv16
  {
    if crc & 0x8000 != 0 then (crc << 1) ^ poly else crc << 1
  }

  /** `j` steps of the inner loop. */
  function Steps(crc: bv16, poly: bv16, j: nat): bv16
  {
    if j == 0 then crc else ShiftStep(Steps(crc, poly, j - 1), poly)
  }

  /** One byte: XOR it into the top half of the register, then eight
      steps. */
  function UpdateByte(crc: bv16, b: Byte, poly: bv16): bv16
  {
    Steps(crc ^ ((b as bv16) << 8), poly, 8)
  }

  /** The register after the bytes of `s`, first byte first. */
  function Update(crc: bv16, s: seq<Byte>, poly: bv16): bv16
    decreases |s|
  {
    if |s| == 0 then crc else UpdateByte(Update(crc, s[..|s| - 1], poly), s[|s| - 1], poly)
  }

  /** The register on entry: the initial XOR on the first call only. */
  function Start(crc: bv16, first: bool, p: CrcParam): bv16
    requires Stored(p)
  {
    if first then crc ^ InitialXor16(p) else crc
  }

  /** The register on exit: the final XOR and the reflection of the whole
      register when no more fragments follow, else the register as it is. */
  function Finalize(crc: bv16, p: CrcParam, moreFragments: bool): bv16
    requires Stored(p)
  {
    if moreFragments then crc
    else if p.reflectRemainder then Reflect16(crc ^ FinalXor16(p))
    else crc ^ FinalXor16(p)
  }

  /** What one call that is not refused leaves in `*p_crc`: the bytes are
      reflected first when the record asks for it. */
  function Call(crc: bv16, first: bool, s: seq<Byte>, p: CrcParam, moreFragments: bool): bv16
    requires Stored(p)
  {
    Finalize(Update(Start(crc, first, p), CheckReflect(s, p.reflectInput), Poly(p)), p, moreFragments)
  }

  /** The register after a run of calls, one per fragment, each told
      whether more fragments follow. */
  function Fragments(crc: bv16, first: bool, chunks: seq<seq<Byte>>, more: seq<bool>, p: CrcParam): bv16
    requires Stored(p) && |chunks| == |more|
    decreases |chunks|
  {
    if |chunks| == 0 then crc
    else Fragments(Call(crc, first, chunks[0], p, more[0]), false, chunks[1..], more[1..], p)
  }

  /** All fragments, one after the other. */
  function Concat(chunks: seq<seq<Byte>>): (s: seq<Byte>)
    decreases |chunks|
  {
    if |chunks| == 0 then [] else chunks[0] + Concat(chunks[1..])
  }

  // ---------------------------------------------------------------------
  // Fragments
  // ---------------------------------------------------------------------

  /** Feeding two strings one after the other is feeding their
      concatenation. */
  lemma {:induction false} UpdateConcat(crc: bv16, a: seq<Byte>, b: seq<Byte>, poly: bv16)
    ensures Update(crc, a + b, poly) == Update(Update(crc, a, poly), b, poly)
    decreases |b|
  {
    if |b| > 0 {
      var k := |b| - 1;
      assert (a + b)[..|a + b| - 1] == a + b[..k];
      assert (a + b)[|a + b| - 1] == b[k];
      UpdateConcat(crc, a, b[..k], poly);
    } else {
      assert a + b == a;
    }
  }

  /** Reflecting the input byte by byte commutes with concatenation. */
  lemma CheckReflectConcat(a: seq<Byte>, b: seq<Byte>, reflect: bool)
    ensures CheckReflect(a + b, reflect) == CheckReflect(a, reflect) + CheckReflect(b, reflect)
  {
    if reflect {
      var r, s := ReflectEach(a + b), ReflectEach(a) + ReflectEach(b);
      forall i | 0 <= i < |r| ensures r[i] == s[i] {
        if i < |a| {
          assert (a + b)[i] == a[i];
        } else {
          assert (a + b)[i] == b[i - |a|];
        }
      }
    }
  }

  /** Splitting a message into fragments, with `more_fragments` set on all
      but the last, leaves the same register as one call over the whole
      message. */
  lemma {:induction false} FragmentsConcat(crc: bv16, first: bool, chunks: seq<seq<Byte>>, more: seq<bool>, p: CrcParam)
    requires Stored(p) && 0 < |chunks| == |more|
    requires !more[|more| - 1] && forall i :: 0 <= i < |more| - 1 ==> more[i]
    ensures Fragments(crc, first, chunks, more, p) == Call(crc, first, Concat(chunks), p, false)
    decreases |chunks|
  {
    if |chunks| == 1 {
      assert Concat(chunks) == chunks[0] + [];
      assert chunks[0] + [] == chunks[0];
    } else {
      var x0 := Start(crc, first, p);
      var x := Update(x0, CheckReflect(chunks[0], p.reflectInput), Poly(p));
      assert Call(crc, first, chunks[0], p, more[0]) == x;
      FragmentsConcat(x, false, chunks[1..], more[1..], p);
      CheckReflectConcat(chunks[0], Concat(chunks[1..]), p.reflectInput);
      UpdateConcat(x0, CheckReflect(chunks[0], p.reflectInput), CheckReflect(Concat(chunks[1..]), p.reflectInput), Poly(p));
    }
  }

  /** An empty fragment only applies the initial and final steps. */
  lemma EmptyCall(crc: bv16, first: bool, p: CrcParam, moreFragments: bool)
    requires Stored(p)
    ensures Call(crc, first, [], p, moreFragments) == Finalize(Start(crc, first, p), p, moreFragments)
    ensures !first && moreFragments ==> Call(crc, first, [], p, moreFragments) == crc
  {
    assert CheckReflect([], p.reflectInput) == [];
  }

  /** The final steps can be undone: the register before them is recovered
      from the register after them. */
  lemma FinalizeInvertible(crc: bv16, p: CrcParam)
    requires Stored(p)
    ensures (if p.reflectRemainder then Reflect16(Finalize(crc, p, false)) else Finalize(crc, p, false)) ^ FinalXor16(p) == crc
  {
    Reflect16Involutive(crc ^ FinalXor16(p));
  }

  /** `reflect_bits_8`: each of the first `len` bytes reversed in place. */
  method ReflectBits8(data: array<Byte>, len: nat)
    requires len <= data.Length
    modifies data
    ensures data[..len] == ReflectEach(old(data[..len])) && data[len..] == old(data[len..])
  {
    forall i | 0 <= i < len {
      data[i] := Reflect8(data[i]);
    }
  }

  /** The loops of `crc16_algorithm` over the bytes and their bits: the
      register after the first `len` bytes of `data`. */
  method FeedBytes(data: array<Byte>, len: nat, poly: bv16, crc0: bv16) returns (crc: bv16)
    requires len <= data.Length
    ensures crc == Update(crc0, data[..len], poly)
  {
    crc := crc0;
    var i := 0;
    while i < len
      invariant i <= len
      invariant crc == Update(crc0, data[..i], poly)
    {
      var curByte := data[i];
      crc := crc ^ ((curByte as bv16) << 8);
      ghost var fed := crc;
      var j := 0;
      while j < 8
        invariant j <= 8
        invariant crc == Steps(fed, poly, j)
      {
        if crc & 0x8000 != 0 {
          crc := (crc << 1) ^ poly;
        } else {
          crc := crc << 1;
        }
        j := j + 1;
      }
      assert data[..i + 1][..i] == data[..i];
      i := i + 1;
    }
    assert data[..len] == data[..i];
  }

  /** The end of `crc16_algorithm`: the final XOR, then the reflection of
      the register, unless more fragments follow. */
  method FinalSteps(crc0: bv16, p: CrcParam, moreFragments: bool) returns (crc: bv16)
    requires Stored(p)
    ensures crc == Finalize(crc0, p, moreFragments)
  {
    crc := crc0;
    if !moreFragments {
      crc := crc ^ FinalXor16(p);
      if p.reflectRemainder {
        crc := Reflect16(crc);
      }
    }
  }

  /** The in-place reflection of the input in `crc16_algorithm`, done only
      when the record asks for it. */
  method ReflectInput(data: array<Byte>, len: nat, reflect: bool)
    requires len <= data.Length
    modifies data
    ensures data[..len] == CheckReflect(old(data[..len]), reflect)
    ensures data[..] == CheckReflect(old(data[..len]), reflect) + old(data[len..])
  {
    if reflect {
      ReflectBits8(data, len);
    }
    assert data[..] == data[..len] + data[len..];
  }

  /** The register work of `crc16_algorithm` on the (already reflected)
      first `len` bytes of `data`: the initial XOR if this is the first
      call, the two loops, and the final steps if no more fragments
      follow. */
  method Register(data: array<Byte>, len: nat, p: CrcParam, pCrc: bv16, first: bool, moreFragments: bool) returns (crc: bv16)
    requires Stored(p) && len <= data.Length
    ensures crc == Finalize(Update(Start(pCrc, first, p), data[..len], Poly(p)), p, moreFragments)
  {
    var poly := Poly(p);
    crc := pCrc;
    if first {
      crc := crc ^ InitialXor16(p);
    }
    crc := FeedBytes(data, len, poly, crc);
    crc := FinalSteps(crc, p, moreFragments);
  }

  // ---------------------------------------------------------------------
  // The engine's state
  // ---------------------------------------------------------------------

  /** The routine `crc_calc_func` points to. */
  datatype CalcFunc = Null | CalculateCrc16Func

  /** What a run of the byte-wise entry point ends in: a call through the
      null routine pointer, or the printed 16-bit checksum. */
  datatype ByteOutcome = NullCall | Crc16Printed(crc: bv16)

  /** The static state of src/crcbyte.c: the `first_call` flag of
      `crc16_algorithm`, the selected record `polynomial` and the routine
      pointer `crc_calc_func`. */
  class ByteEngine {
    var firstCall: bool
    var polynomial: CrcParam
    var calcFunc: CalcFunc

    predicate Valid()
      reads this
    {
      Stored(polynomial)
    }

    /** Static storage starts out as `first_call = 0xFF`, a zeroed record
        and a null routine pointer. */
    constructor ()
      ensures Valid() && firstCall && calcFunc == Null
      ensures polynomial == CrcParam(0, Zeros(ParamSpace), Zeros(ParamSpace), Zeros(ParamSpace), false, false)
    {
      firstCall := true;
      polynomial := CrcParam(0, Zeros(ParamSpace), Zeros(ParamSpace), Zeros(ParamSpace), false, false);
      calcFunc := Null;
    }

    /** `init_polynomial_even`: select the record of the degree; only
        degree 16 installs a routine, other degrees leave the pointer as it
        was, and an unknown degree changes nothing. */
    method InitPolynomialEven(degree: nat)
      requires Valid()
      modifies this
      ensures Valid() && firstCall == old(firstCall)
      ensures Supported(degree) ==> polynomial == CrcParamEven.PolyParam(degree).value
      ensures !Supported(degree) ==> polynomial == old(polynomial)
      ensures calcFunc == (if degree == 16 then CalculateCrc16Func else old(calcFunc))
    {
      if degree == 3 {
        polynomial := CrcParamEven.Crc3Wikipedia;
      } else if degree == 8 {
        polynomial := CrcParamEven.Crc8Ccitt;
      } else if degree == 16 {
        polynomial := CrcParamEven.Crc16CcittFalse;
        calcFunc := CalculateCrc16Func;
      } else if degree == 32 {
        polynomial := CrcParamEven.Crc32;
      } else if degree == 64 {
        polynomial := CrcParamEven.Crc64Iso;
      }
    }

    /** `crc16_algorithm`: a length of `UINT32_MAX` is refused and leaves
        everything as it was; otherwise see Crc16Run. */
    method Crc16Algorithm(data: array<Byte>, len: nat, p: CrcParam, pCrc: bv16, moreFragments: bool) returns (crc: bv16)
      requires Stored(p) && len <= Uint32Max && (len < Uint32Max ==> len <= data.Length)
      modifies this, data
      ensures polynomial == old(polynomial) && calcFunc == old(calcFunc)
      ensures len == Uint32Max ==> crc == pCrc && firstCall == old(firstCall) && data[..] == old(data[..])
      ensures len < Uint32Max ==> !firstCall && crc == Call(pCrc, old(firstCall), old(data[..len]), p, moreFragments)
      ensures len < Uint32Max ==> data[..] == CheckReflect(old(data[..len]), p.reflectInput) + old(data[len..])
    {
      if len >= Uint32Max {
        return pCrc;
      }
      crc := Crc16Run(data, len, p, pCrc, moreFragments);
    }

    /** The body of `crc16_algorithm` past the length check: the first
        `len` bytes of `data` are reflected in place when the record asks
        for it and fed to the register, the initial XOR is applied if this
        is the first call ever, and the final steps if no more fragments
        follow. */
    method Crc16Run(data: array<Byte>, len: nat, p: CrcParam, pCrc: bv16, moreFragments: bool) returns (crc: bv16)
      requires Stored(p) && len <= data.Length
      modifies this, data
      ensures polynomial == old(polynomial) && calcFunc == old(calcFunc)
      ensures !firstCall && crc == Call(pCrc, old(firstCall), old(data[..len]), p, moreFragments)
      ensures data[..] == CheckReflect(old(data[..len]), p.reflectInput) + old(data[len..])
    {
      ReflectInput(data, len, p.reflectInput);
      var first := firstCall;
      if firstCall {
        firstCall := false;
      }
      crc := Register(data, len, p, pCrc, first, moreFragments);
    }

    /** `calculate_crc16`: the register starts at zero and each fragment
        the file walker hands over goes through `crc16_algorithm` with the
        walker's `more_fragments`; at the table level nothing is computed. */
    method CalculateCrc16(chunks: seq<seq<Byte>>, more: seq<bool>, optLevel: nat) returns (crc16: bv16)
      requires Valid() && |chunks| == |more|
      requires forall k :: 0 <= k < |chunks| ==> 0 < |chunks[k]| < Uint32Max
      modifies this
      ensures Valid() && polynomial == old(polynomial) && calcFunc == old(calcFunc)
      ensures optLevel == OptLevelNone ==> crc16 == Fragments(0x0000, old(firstCall), chunks, more, polynomial)
      ensures optLevel == OptLevelNone ==> firstCall == (old(firstCall) && |chunks| == 0)
      ensures optLevel != OptLevelNone ==> crc16 == 0x0000 && firstCall == old(firstCall)
    {
      crc16 := 0x0000;
      var i := 0;
      while i < |chunks|
        invariant i <= |chunks|
        invariant Valid() && polynomial == old(polynomial) && calcFunc == old(calcFunc)
        invariant optLevel == OptLevelNone ==> firstCall == (old(firstCall) && i == 0)
        invariant optLevel == OptLevelNone ==>
          Fragments(crc16, firstCall, chunks[i..], more[i..], polynomial) == Fragments(0x0000, old(firstCall), chunks, more, polynomial)
        invariant optLevel != OptLevelNone ==> crc16 == 0x0000 && firstCall == old(firstCall)
      {
        var chunk := chunks[i];
        var buf := new Byte[|chunk|](k requires 0 <= k < |chunk| => chunk[k]);
        if optLevel == OptLevelNone {
          assert buf[..|chunk|] == chunk;
          ghost var first := firstCall;
          crc16 := Crc16Algorithm(buf, |chunk|, polynomial, crc16, more[i]);
          assert chunks[i..][1..] == chunks[i + 1..] && more[i..][1..] == more[i + 1..];
        }
        i := i + 1;
      }
    }

    /** `calculate_crc_from_file_bytewise`: select the record, then call
        through the routine pointer, which is null unless some call so far
        selected degree 16. */
    method CalculateCrcFromFileBytewise(degree: nat, chunks: seq<seq<Byte>>, more: seq<bool>) returns (r: ByteOutcome)
      requires Valid() && |chunks| == |more|
      requires forall k :: 0 <= k < |chunks| ==> 0 < |chunks[k]| < Uint32Max
      modifies this
      ensures Valid()
      ensures r == NullCall <==> degree != 16 && old(calcFunc) == Null
      ensures r != NullCall ==> r == Crc16Printed(Fragments(0x0000, old(firstCall), chunks, more, polynomial))
      ensures r == NullCall ==> firstCall == old(firstCall)
      ensures r != NullCall ==> firstCall == (old(firstCall) && |chunks| == 0)
      ensures Supported(degree) ==> polynomial == CrcParamEven.PolyParam(degree).value
      ensures !Supported(degree) ==> polynomial == old(polynomial)
      ensures calcFunc == (if degree == 16 then CalculateCrc16Func else old(calcFunc))
    {
      InitPolynomialEven(degree);
      if calcFunc == Null {
        r := NullCall;
      } else {
        var crc16 := CalculateCrc16(chunks, more, OptLevelNone);
        r := Crc16Printed(crc16);
      }
    }

    /** `calculate_crc_from_file_bytewise_lut`: selects the record and
        computes nothing. */
    method CalculateCrcFromFileBytewiseLut(degree: nat)
      requires Valid()
      modifies this
      ensures Valid() && firstCall == old(firstCall)
      ensures Supported(degree) ==> polynomial == CrcParamEven.PolyParam(degree).value
      ensures !Supported(degree) ==> polynomial == old(polynomial)
      ensures calcFunc == (if degree == 16 then CalculateCrc16Func else old(calcFunc))
    {
      InitPolynomialEven(degree);
    }
  }
}
