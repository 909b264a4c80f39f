/**
 * What `calculate_crc_from_file_bitwise` (src/crcbit.c) computes, stated on
 * the whole file at once: the parameter tables of crcbit.c, the augmented
 * message, the run of `crunch` over all of it, the finishing steps and the
 * printed bytes.  Beside it stands what the chunked loop computes as
 * written, which differs by bytes a previous chunk leaves behind in the
 * buffer.
 *
 * The generator window is `|p.coeff|` bytes wide; for the tables of
 * crcbit.c that is `poly_bytes`.
 */
module CrcBitFile {
  import opened Bits
  import opened CrcTypes
  import opened Division
  import opened CrcBit
  import opened CrunchTheory
  import CrcParamOdd

  /** `FILE_BUF_SIZE` (include/crc.h): the default chunk size, 64 MiB. */
  const FileBufSize: nat := 64 * 1024 * 1024

  /** `init_polynomial_odd`: the tables of src/crcbit.c.  They carry the
      coefficients of the odd header, but the degree-16 entry is
      CCITT-FALSE where that header maps KERMIT, and only degree 32
      reflects.  Other degrees select nothing. */
  function InitPolynomialOdd(degree: nat): (r: Option<CrcParam>)
    ensures r.Some? <==> Supported(degree)
    ensures r.Some? ==> r.value.degree == degree && WellSized(r.value) && Layout(r.value) && TopBitSet(r.value)
    ensures r.Some? ==> r.value.coeff == CrcParamOdd.PolyParam(degree).value.coeff
    ensures r.Some? ==> (r.value.reflectInput <==> degree == 32) && (r.value.reflectRemainder <==> degree == 32)
    ensures degree == 16 ==> r == Some(CrcParamOdd.Crc16CcittFalse) && r != CrcParamOdd.PolyParam(16)
  {
    if degree == 3 then Some(CrcParam(3, [0xB0], [0x00], [0x00], false, false))
    else if degree == 8 then Some(CrcParam(8, [0x83, 0x80], [0x00], [0x00], false, false))
    else if degree == 16 then Some(CrcParam(16, [0x88, 0x10, 0x80], [0xFF, 0xFF], [0x00, 0x00], false, false))
    else if degree == 32 then
      Some(CrcParam(32, [0x82, 0x60, 0x8E, 0xDB, 0x80], [0xFF, 0xFF, 0xFF, 0xFF], [0xFF, 0xFF, 0xFF, 0xFF], true, true))
    else if degree == 64 then
      Some(CrcParam(64, [0x80, 0x00, 0x00, 0x00, 0x00, 0x00, 0x00, 0x0D, 0x80], Zeros(8), Zeros(8), false, false))
    else None
  }

  /** The message `crunch` divides: the file's bytes, reflected when the
      parameters ask for it, then checksum_size + 1 zero bytes, with the
      initial XOR applied to the first checksum_size bytes. */
  function Augmented(data: seq<Byte>, p: BitParam): (m: seq<Byte>)
    ensures |m| == |data| + ChecksumSize(p.degree) + 1
    ensures forall i {:trigger m[i]} :: 0 <= i < ChecksumSize(p.degree) ==>
              m[i] == (CheckReflect(data, p.reflectInput) + Zeros(ChecksumSize(p.degree) + 1))[i] ^ p.initialXor[i]
    ensures forall i {:trigger m[i]} :: ChecksumSize(p.degree) <= i < |data| ==> m[i] == CheckReflect(data, p.reflectInput)[i]
    ensures forall i {:trigger m[i]} :: |data| <= i < |m| && ChecksumSize(p.degree) <= i ==> m[i] == 0
  {
    var cs := ChecksumSize(p.degree);
    XorPrefix(CheckReflect(data, p.reflectInput) + Zeros(cs + 1), p.initialXor, cs)
  }

  /** Both work buffers over the whole message: the augmented message, and
      the generator bytes at the front of an otherwise zero buffer. */
  function Whole(data: seq<Byte>, p: BitParam): (w: Work)
    ensures |w.file| == |w.poly| == 8 * (|data| + ChecksumSize(p.degree) + 1)
  {
    Work(BitsOf(Augmented(data, p)), Place(BitsOf(p.coeff), 0, 8 * (|data| + ChecksumSize(p.degree) + 1)))
  }

  /** The steps over the bits of the first h bytes fit the buffers. */
  lemma WholeRoom(data: seq<Byte>, p: BitParam, h: nat)
    requires h <= |data|
    ensures Room(Whole(data, p), |p.coeff|, 0, 8 * h)
  {
    if h > 0 {
      ByteStartOf(h - 1, 7);
      assert 8 * h - 1 == 8 * (h - 1) + 7;
    }
  }

  /** Both buffers after `crunch` has gone over the first h bytes of the
      message. */
  function State(data: seq<Byte>, p: BitParam, h: nat): (w: Work)
    requires h <= |data|
    ensures |w.file| == |w.poly| == 8 * (|data| + ChecksumSize(p.degree) + 1)
    decreases h, 1
  {
    StateAfter(data, p, h)
  }

  /** The state after h bytes: the whole buffers before any step, else the
      state after h - 1 bytes taken through the eight steps of byte h - 1. */
  function StateAfter(data: seq<Byte>, p: BitParam, h: nat): (w: Work)
    requires h <= |data|
    ensures |w.file| == |w.poly| == 8 * (|data| + ChecksumSize(p.degree) + 1)
    decreases h, 0
  {
    if h == 0 then Whole(data, p)
    else
      ByteStartOf(h - 1, 7);
      Crunched(State(data, p, h - 1), |p.coeff|, 8 * (h - 1), 8 * h)
  }

  /** The state after h bytes is the run of `crunch` over the bits of the
      first h bytes of the whole buffers. */
  lemma {:induction false} StateCrunched(data: seq<Byte>, p: BitParam, h: nat)
    requires h <= |data|
    ensures Room(Whole(data, p), |p.coeff|, 0, 8 * h)
    ensures State(data, p, h) == Crunched(Whole(data, p), |p.coeff|, 0, 8 * h)
  {
    WholeRoom(data, p, h);
    if h > 0 {
      StateCrunched(data, p, h - 1);
      StateStep(data, p, h);
    }
  }

  /** One more byte: the eight steps of byte h - 1 extend the run over the
      first h - 1 bytes. */
  lemma StateStep(data: seq<Byte>, p: BitParam, h: nat)
    requires 0 < h <= |data|
    requires Room(Whole(data, p), |p.coeff|, 0, 8 * (h - 1))
    requires State(data, p, h - 1) == Crunched(Whole(data, p), |p.coeff|, 0, 8 * (h - 1))
    ensures Room(Whole(data, p), |p.coeff|, 0, 8 * h)
    ensures State(data, p, h) == Crunched(Whole(data, p), |p.coeff|, 0, 8 * h)
  {
    assert State(data, p, h) == StateAfter(data, p, h);
    ByteStartOf(h - 1, 7);
    CrunchedCompose(Whole(data, p), |p.coeff|, 0, 8 * (h - 1), 8 * h);
  }

  /** The message bytes after `crunch` has gone over the first h bytes. */
  function Message(data: seq<Byte>, p: BitParam, h: nat): (b: seq<Byte>)
    requires h <= |data|
    ensures |b| == |data| + ChecksumSize(p.degree) + 1
  {
    FromBits(State(data, p, h).file, |data| + ChecksumSize(p.degree) + 1)
  }

  /** The bits of those bytes are the file buffer of the state. */
  lemma MessageBits(data: seq<Byte>, p: BitParam, h: nat)
    requires h <= |data|
    ensures BitsOf(Message(data, p, h)) == State(data, p, h).file
  {
    FromBitsBits(State(data, p, h).file, |data| + ChecksumSize(p.degree) + 1);
    assert Message(data, p, h) == FromBits(State(data, p, h).file, |data| + ChecksumSize(p.degree) + 1);
  }

  /** The remainder: the checksum_size bytes that follow the message once
      `crunch` has gone over all of its bits. */
  function Remainder(data: seq<Byte>, p: BitParam): (r: seq<Byte>)
    ensures |r| == ChecksumSize(p.degree)
  {
    Message(data, p, |data|)[|data|..|data| + ChecksumSize(p.degree)]
  }

  /** `print_crc_checksum`: the order in which the remainder bytes are
      printed, last byte first when the remainder is reflected. */
  function Emitted(r: seq<Byte>, reflectRemainder: bool): (digits: seq<Byte>)
    ensures |digits| == |r|
    ensures forall i {:trigger digits[i]} :: 0 <= i < |r| ==> digits[i] == r[if reflectRemainder then |r| - 1 - i else i]
  {
    if reflectRemainder then Reverse(r) else r
  }

  /** The steps after the loop: final XOR, reflection of the remainder,
      printing. */
  function Finish(r: seq<Byte>, p: BitParam): (digits: seq<Byte>)
    requires |r| == ChecksumSize(p.degree)
    ensures |digits| == |r|
  {
    var cs := ChecksumSize(p.degree);
    Emitted(CheckReflect(XorPrefix(r, p.finalXor, cs), p.reflectRemainder), p.reflectRemainder)
  }

  /** Printing the byte-wise reflected remainder last byte first emits
      the remainder's whole bit string reversed. */
  lemma EmittedReflection(r: seq<Byte>)
    ensures BitsOf(Emitted(ReflectEach(r), true)) == Reverse(BitsOf(r))
  {
    ReverseReflectBits(r);
  }

  /** With reflect_remainder set, the printed bits are the bits of the
      remainder after the final XOR, in reverse order; otherwise those
      bytes as they are. */
  lemma FinishReflected(r: seq<Byte>, p: BitParam)
    requires |r| == ChecksumSize(p.degree)
    ensures p.reflectRemainder ==> BitsOf(Finish(r, p)) == Reverse(BitsOf(XorPrefix(r, p.finalXor, ChecksumSize(p.degree))))
    ensures !p.reflectRemainder ==> Finish(r, p) == XorPrefix(r, p.finalXor, ChecksumSize(p.degree))
  {
    EmittedReflection(XorPrefix(r, p.finalXor, ChecksumSize(p.degree)));
  }

  /** What a run reports: the empty-file message, the buffer-size error, or
      the printed checksum bytes. */
  datatype Outcome = EmptyFile | BufferTooSmall | Checksum(digits: seq<Byte>)

  /** The checksum of a file with chunks of `bufSize` bytes, as the chunked
      loop is meant to compute it: the checksum of the whole file. */
  function CrcOfFile(data: seq<Byte>, p: BitParam, bufSize: nat): (r: Outcome)
    ensures r == EmptyFile <==> |data| == 0
    ensures r == BufferTooSmall <==> 0 < |data| && bufSize <= |p.coeff|
    ensures r.Checksum? ==> |r.digits| == ChecksumSize(p.degree)
  {
    if |data| == 0 then EmptyFile
    else if bufSize <= |p.coeff| then BufferTooSmall
    else Checksum(Finish(Remainder(data, p), p))
  }

  // ---------------------------------------------------------------------
  // The loop as written
  // ---------------------------------------------------------------------

  /** Where the last chunk starts in the message: chunks start every
      bufSize - polyBytes bytes, and the last one is the first that reaches
      the end of the file. */
  function FinalStart(n: nat, bufSize: nat, polyBytes: nat): (f: nat)
    requires polyBytes < bufSize
    ensures n <= bufSize ==> f == 0
    ensures bufSize < n ==> bufSize - polyBytes <= f && f + polyBytes < n <= f + bufSize
    decreases n
  {
    if n <= bufSize then 0 else (bufSize - polyBytes) + FinalStart(n - (bufSize - polyBytes), bufSize, polyBytes)
  }

  /** A buffer resized by `realloc`: cut, or grown with bytes that are
      taken to be zero. */
  function Resized(a: seq<Byte>, size: nat): (r: seq<Byte>)
    ensures |r| == size
    ensures size <= |a| ==> r == a[..size]
    ensures |a| <= size ==> r == a + Zeros(size - |a|)
  {
    if size <= |a| then a[..size] else a + Zeros(size - |a|)
  }

  /** The checksum_size + 1 bytes that follow the file on the last chunk,
      as the loop leaves them.  The buffer is refilled only up to the end
      of the file; after it, up to the old buffer size, it still holds what
      `crunch` left there on the chunk before.  Zero when the file fits one
      chunk. */
  function StaleTail(data: seq<Byte>, p: BitParam, bufSize: nat): (e: seq<Byte>)
    requires |p.coeff| < bufSize
    ensures |e| == ChecksumSize(p.degree) + 1
    ensures |data| <= bufSize ==> e == Zeros(ChecksumSize(p.degree) + 1)
  {
    if |data| <= bufSize then Zeros(ChecksumSize(p.degree) + 1)
    else
      var f := FinalStart(|data|, bufSize, |p.coeff|);
      Stale(Message(data, p, f), |data|, bufSize, |p.coeff|, f, ChecksumSize(p.degree) + 1)
  }

  /** The stale bytes of the last chunk of an n-byte file, which starts at
      byte f of the message m: chunks are s = bufSize - polyBytes bytes
      apart, so the old buffer holds m from byte f - s on, and past the
      file's last byte it holds m[n - s..f + polyBytes]; `realloc` cuts
      those bytes to `len` or, past the old size, pads them. */
  function Stale(m: seq<Byte>, n: nat, bufSize: nat, polyBytes: nat, f: nat, len: nat): (e: seq<Byte>)
    requires polyBytes < bufSize && bufSize - polyBytes <= f && n <= f + bufSize && f + polyBytes <= n <= |m|
    ensures |e| == len
  {
    Resized(m[n - (bufSize - polyBytes)..f + polyBytes], len)
  }

  /** The part of the stale tail that lands on the remainder. */
  function Leftover(data: seq<Byte>, p: BitParam, bufSize: nat): (e: seq<Byte>)
    requires |p.coeff| < bufSize
    ensures |e| == ChecksumSize(p.degree)
    ensures |data| <= bufSize ==> e == Zeros(ChecksumSize(p.degree))
  {
    StaleTail(data, p, bufSize)[..ChecksumSize(p.degree)]
  }

  /** What the loop as written reports: the remainder is disturbed by the
      leftover bytes. */
  function AsWrittenCrc(data: seq<Byte>, p: BitParam, bufSize: nat): (r: Outcome)
    ensures r == EmptyFile <==> |data| == 0
    ensures r == BufferTooSmall <==> 0 < |data| && bufSize <= |p.coeff|
    ensures r.Checksum? ==> |r.digits| == ChecksumSize(p.degree)
  {
    if |data| == 0 then EmptyFile
    else if bufSize <= |p.coeff| then BufferTooSmall
    else Checksum(Finish(XorBytes(Remainder(data, p), Leftover(data, p, bufSize)), p))
  }
}
