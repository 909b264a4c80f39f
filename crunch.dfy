/**
 * The bit-serial long-division engine of src/crcbit.c: `shift_one_right`,
 * `xor_bits_bytewise` and `crunch`, over two byte buffers.
 *
 * `file_buf` holds the (augmented) message; `poly_buf` holds the generator
 * polynomial in the "odd" encoding, moved right by one bit after every bit
 * of the message.  Whenever the current message bit is set, the polynomial
 * window is XORed into the message.
 */
module CrcBit {
  import opened Bits

  /** The bit strings of the two work buffers, `file_buf` and `poly_buf`. */
  datatype Work = Work(file: seq<bool>, poly: seq<bool>)

  // ---------------------------------------------------------------------
  // Byte-level building blocks
  // ---------------------------------------------------------------------

  /** `shift_one_right(p + k, w)`: bytes k..k+w (both included) shifted
      right by one bit as one big-endian bit string; the bit shifted out of
      byte i-1 enters byte i at the top, byte k gains a zero top bit. */
  function ShiftWindow(p: seq<Byte>, k: nat, w: nat): (r: seq<Byte>)
    requires k + w < |p|
    ensures |r| == |p|
  {
    seq(|p|, i requires 0 <= i < |p| =>
      if i < k || k + w < i then p[i]
      else if i == k then ShiftIn(p[k], 0)
      else ShiftIn(p[i], p[i - 1]))
  }

  /** A byte shifted right by one bit, its top bit taken from the lowest
      bit of the byte before it. */
  function ShiftIn(b: Byte, before: Byte): Byte
  {
    (b >> 1) | ((before & 0x01) << 7)
  }

  /** The first `w` bytes from offset `k` of `f` XORed with those of `p`. */
  function XorWindow(f: seq<Byte>, p: seq<Byte>, k: nat, w: nat): (r: seq<Byte>)
    requires k + w <= |f| && k + w <= |p|
    ensures |r| == |f|
  {
    seq(|f|, i requires 0 <= i < |f| => if k <= i < k + w then f[i] ^ p[i] else f[i])
  }

  /** `xor_bits_bytewise(field, x, n)`: the first n bytes of `field` XORed
      with those of `x`. */
  function XorPrefix(field: seq<Byte>, x: seq<Byte>, n: nat): (r: seq<Byte>)
    requires n <= |field| && n <= |x|
    ensures |r| == |field|
  {
    XorWindow(field, x, 0, n)
  }

  /** Widening the XOR window by one byte changes that byte only. */
  lemma XorWindowGrow(f: seq<Byte>, p: seq<Byte>, k: nat, w: nat)
    requires k + w < |f| && k + w < |p|
    ensures XorWindow(f, p, k, w + 1) == XorWindow(f, p, k, w)[k + w := f[k + w] ^ p[k + w]]
  {
  }

  // ---------------------------------------------------------------------
  // The same operations on the bit strings of the buffers
  // ---------------------------------------------------------------------

  /** Bits a..b-1 of `s` moved one place towards the end: a zero enters at
      bit a and the bit at b-1 falls out. */
  function SlideBits(s: seq<bool>, a: nat, b: nat): (r: seq<bool>)
    requires b <= |s|
    ensures |r| == |s|
  {
    seq(|s|, i requires 0 <= i < |s| => if a <= i < b then i != a && s[i - 1] else s[i])
  }

  /** Bits a..b-1 of `s` XORed with those of `t`. */
  function XorBitsIn(s: seq<bool>, t: seq<bool>, a: nat, b: nat): (r: seq<bool>)
    requires b <= |s| && b <= |t|
    ensures |r| == |s|
  {
    seq(|s|, i requires 0 <= i < |s| => if a <= i < b then s[i] != t[i] else s[i])
  }

  /** Bit `j` of a shifted-in byte. */
  lemma ShiftInBit(b: Byte, before: Byte, j: nat)
    requires j < 8
    ensures BitOf(ShiftIn(b, before), j) == if j == 0 then BitOf(before, 7) else BitOf(b, j - 1)
  {
    if j == 0 {} else if j == 1 {} else if j == 2 {} else if j == 3 {}
    else if j == 4 {} else if j == 5 {} else if j == 6 {} else {}
  }

  /** `shift_one_right` shifts the big-endian bit string of bytes k..k+w
      right by exactly one bit; no other byte changes. */
  lemma ShiftWindowBits(p: seq<Byte>, k: nat, w: nat)
    requires k + w < |p|
    ensures BitsOf(ShiftWindow(p, k, w)) == SlideBits(BitsOf(p), 8 * k, 8 * (k + w + 1))
  {
    forall i | 0 <= i < 8 * |p|
      ensures BitsOf(ShiftWindow(p, k, w))[i] == SlideBits(BitsOf(p), 8 * k, 8 * (k + w + 1))[i]
    {
      ShiftWindowBitAt(p, k, w, i, i / 8, i % 8);
    }
  }

  lemma ShiftWindowBitAt(p: seq<Byte>, k: nat, w: nat, i: nat, m: nat, j: nat)
    requires k + w < |p| && i == 8 * m + j && j < 8 && m < |p|
    ensures BitsOf(ShiftWindow(p, k, w))[i] == SlideBits(BitsOf(p), 8 * k, 8 * (k + w + 1))[i]
  {
    if m < k || k + w < m {
      ShiftedOutside(p, k, w, i, m, j);
    } else if j == 0 {
      ShiftedFirstBit(p, k, w, i, m);
    } else {
      ShiftedLaterBit(p, k, w, i, m, j);
    }
  }

  /** Outside the window nothing moves. */
  lemma ShiftedOutside(p: seq<Byte>, k: nat, w: nat, i: nat, m: nat, j: nat)
    requires k + w < |p| && i == 8 * m + j && j < 8 && m < |p| && (m < k || k + w < m)
    ensures BitsOf(ShiftWindow(p, k, w))[i] == SlideBits(BitsOf(p), 8 * k, 8 * (k + w + 1))[i]
  {
    assert i / 8 == m && i % 8 == j;
  }

  /** The top bit of a byte in the window comes from the byte before, or is
      zero in the first byte. */
  lemma ShiftedFirstBit(p: seq<Byte>, k: nat, w: nat, i: nat, m: nat)
    requires k <= m <= k + w < |p| && i == 8 * m
    ensures BitsOf(ShiftWindow(p, k, w))[i] == SlideBits(BitsOf(p), 8 * k, 8 * (k + w + 1))[i]
  {
    if m == k {
      ShiftedWindowStart(p, k, w, i);
    } else {
      ShiftedByteTop(p, k, w, i, m);
    }
  }

  /** The first bit of the window becomes zero. */
  lemma ShiftedWindowStart(p: seq<Byte>, k: nat, w: nat, i: nat)
    requires k + w < |p| && i == 8 * k
    ensures !BitsOf(ShiftWindow(p, k, w))[i] && !SlideBits(BitsOf(p), 8 * k, 8 * (k + w + 1))[i]
  {
    ShiftInBit(p[k], 0, 0);
    assert !BitOf(0, 7);
    assert i / 8 == k && i % 8 == 0;
  }

  /** The top bit of a later byte of the window is the last bit of the
      byte before it. */
  lemma ShiftedByteTop(p: seq<Byte>, k: nat, w: nat, i: nat, m: nat)
    requires k < m <= k + w < |p| && i == 8 * m
    ensures BitsOf(ShiftWindow(p, k, w))[i] == SlideBits(BitsOf(p), 8 * k, 8 * (k + w + 1))[i]
  {
    var q := ShiftWindow(p, k, w);
    ShiftInBit(p[m], p[m - 1], 0);
    BitFromBefore(q, p, i, m, 0, m - 1, 7);
    SlideAt(BitsOf(p), 8 * k, 8 * (k + w + 1), i);
  }

  /** Any other bit in the window comes from the bit before it. */
  lemma ShiftedLaterBit(p: seq<Byte>, k: nat, w: nat, i: nat, m: nat, j: nat)
    requires k <= m <= k + w < |p| && i == 8 * m + j && 0 < j < 8
    ensures BitsOf(ShiftWindow(p, k, w))[i] == SlideBits(BitsOf(p), 8 * k, 8 * (k + w + 1))[i]
  {
    ShiftedByteBit(p, k, w, m, j);
    BitFromBefore(ShiftWindow(p, k, w), p, i, m, j, m, j - 1);
    SlideAt(BitsOf(p), 8 * k, 8 * (k + w + 1), i);
  }

  /** Inside the slid range, a bit is the one before it. */
  lemma SlideAt(s: seq<bool>, a: nat, b: nat, i: nat)
    requires a < i < b <= |s|
    ensures SlideBits(s, a, b)[i] == s[i - 1]
  {
  }

  /** A bit of `q` that equals the bit before it in `p`, stated on bytes,
      stated on bit strings. */
  lemma BitFromBefore(q: seq<Byte>, p: seq<Byte>, i: nat, m: nat, j: nat, m': nat, j': nat)
    requires i == 8 * m + j && j < 8 && m < |q| && i - 1 == 8 * m' + j' && j' < 8 && m' < |p|
    requires BitOf(q[m], j) == BitOf(p[m'], j')
    ensures 0 < i && i - 1 < 8 * |p| && BitsOf(q)[i] == BitsOf(p)[i - 1]
  {
    BitAt(q, i, m, j);
    BitAt(p, i - 1, m', j');
  }

  lemma ShiftedByteBit(p: seq<Byte>, k: nat, w: nat, m: nat, j: nat)
    requires k <= m <= k + w < |p| && j < 8
    ensures BitOf(ShiftWindow(p, k, w)[m], j)
         == if j == 0 then m > k && BitOf(p[m - 1], 7) else BitOf(p[m], j - 1)
  {
    ShiftInBit(p[m], if m == k then 0 else p[m - 1], j);
    if m == k {
      assert !BitOf(0, 7);
    }
  }

  /** The XOR loop of `crunch` XORs the bits of bytes k..k+w-1. */
  lemma XorWindowBits(f: seq<Byte>, p: seq<Byte>, k: nat, w: nat)
    requires k + w <= |f| && k + w <= |p|
    ensures BitsOf(XorWindow(f, p, k, w)) == XorBitsIn(BitsOf(f), BitsOf(p), 8 * k, 8 * (k + w))
  {
    forall i | 0 <= i < 8 * |f|
      ensures BitsOf(XorWindow(f, p, k, w))[i] == XorBitsIn(BitsOf(f), BitsOf(p), 8 * k, 8 * (k + w))[i]
    {
      XorWindowBitAt(f, p, k, w, i, i / 8, i % 8);
    }
  }

  lemma XorWindowBitAt(f: seq<Byte>, p: seq<Byte>, k: nat, w: nat, i: nat, m: nat, j: nat)
    requires k + w <= |f| && k + w <= |p| && i == 8 * m + j && j < 8 && m < |f|
    ensures BitsOf(XorWindow(f, p, k, w))[i] == XorBitsIn(BitsOf(f), BitsOf(p), 8 * k, 8 * (k + w))[i]
  {
    if k <= m < k + w {
      XorBit(f[m], p[m], j);
    }
  }

  /** `xor_bits_bytewise` is its own inverse. */
  lemma XorPrefixInvolutive(field: seq<Byte>, x: seq<Byte>, n: nat)
    requires n <= |field| && n <= |x|
    ensures XorPrefix(XorPrefix(field, x, n), x, n) == field
  {
    forall i | 0 <= i < n ensures field[i] ^ x[i] ^ x[i] == field[i] {
      var a, b := field[i], x[i];
      assert a ^ b ^ b == a;
    }
  }

  // ---------------------------------------------------------------------
  // crunch as bit-serial division
  // ---------------------------------------------------------------------

  /** The first bit of the byte that holds bit `t`. */
  function ByteStart(t: nat): (a: nat)
    ensures a <= t < a + 8
  {
    if t < 8 then 0 else 8 + ByteStart(t - 8)
  }

  /** Bit j of byte k starts at bit 8k. */
  lemma {:induction false} ByteStartOf(k: nat, j: nat)
    requires j < 8
    ensures ByteStart(8 * k + j) == 8 * k
  {
    if k > 0 {
      ByteStartOf(k - 1, j);
    }
  }

  /** ByteStart is monotone. */
  lemma {:induction false} ByteStartMono(s: nat, t: nat)
    requires s <= t
    ensures ByteStart(s) <= ByteStart(t)
  {
    if 8 <= s {
      ByteStartMono(s - 8, t - 8);
    }
  }

  /** There is room in the buffers for the step at bit `t`: the XOR
      window is the pb bytes from the byte of bit t on, the shift window
      one byte more. */
  predicate StepFits(w: Work, t: nat, pb: nat)
  {
    ByteStart(t) + 8 * pb <= |w.file| && t < |w.file| && ByteStart(t) + 8 * pb + 8 <= |w.poly|
  }

  /** One step of `crunch` at bit `t`: when bit t of the file buffer is
      set, XOR the pb-byte polynomial window at t's byte into it; then
      shift the (pb+1)-byte polynomial window right by one bit. */
  function BitStep(w: Work, t: nat, pb: nat): (r: Work)
    requires StepFits(w, t, pb)
    ensures |r.file| == |w.file| && |r.poly| == |w.poly|
  {
    var a := ByteStart(t);
    Work(if w.file[t] then XorBitsIn(w.file, w.poly, a, a + 8 * pb) else w.file,
         SlideBits(w.poly, a, a + 8 * pb + 8))
  }

  /** There is room for the steps at bits lo..hi-1. */
  predicate Room(w: Work, pb: nat, lo: nat, hi: nat)
  {
    lo <= hi && (lo == hi || StepFits(w, hi - 1, pb))
  }

  /** The steps of `crunch` at bits lo..hi-1, in order. */
  function Crunched(w: Work, pb: nat, lo: nat, hi: nat): (r: Work)
    requires Room(w, pb, lo, hi)
    ensures |r.file| == |w.file| && |r.poly| == |w.poly|
    decreases hi - lo, 1
  {
    if hi == lo then w else LastStep(w, pb, lo, hi)
  }

  /** The last of the steps lo..hi-1 after the ones before it. */
  function LastStep(w: Work, pb: nat, lo: nat, hi: nat): (r: Work)
    requires lo < hi && Room(w, pb, lo, hi)
    ensures |r.file| == |w.file| && |r.poly| == |w.poly|
    decreases hi - lo, 0
  {
    if lo < hi - 1 then ByteStartMono(hi - 2, hi - 1); BitStep(Crunched(w, pb, lo, hi - 1), hi - 1, pb) else
    BitStep(Crunched(w, pb, lo, hi - 1), hi - 1, pb)
  }

  // ---------------------------------------------------------------------
  // The routines of crcbit.c on arrays
  // ---------------------------------------------------------------------

  /** `shift_one_right(field + off, overflows)`. */
  method ShiftOneRight(field: array<Byte>, off: nat, overflows: nat)
    requires off + overflows < field.Length
    modifies field
    ensures field[..] == ShiftWindow(old(field[..]), off, overflows)
  {
    ghost var p := field[..];
    var i := overflows;
    while i > 0
      invariant 0 <= i <= overflows
      invariant forall m :: 0 <= m < field.Length && !(off + i < m <= off + overflows) ==> field[m] == p[m]
      invariant forall m :: off + i < m <= off + overflows ==> field[m] == ShiftIn(p[m], p[m - 1])
    {
      field[off + i] := field[off + i] >> 1;
      var c := (field[off + i - 1] & 0x01) << 7;
      field[off + i] := field[off + i] | c;
      assert field[off + i] == ShiftIn(p[off + i], p[off + i - 1]);
      i := i - 1;
    }
    field[off] := field[off] >> 1;
    assert field[off] == ShiftIn(p[off], 0);
  }

  /** `xor_bits_bytewise(field, xorValues, n)`. */
  method XorBitsBytewise(field: array<Byte>, off: nat, xorValues: seq<Byte>, n: nat)
    requires off + n <= field.Length && n <= |xorValues|
    modifies field
    ensures field[..] == old(field[..])[..off] + XorPrefix(old(field[..])[off..], xorValues, n)
  {
    ghost var f := field[..];
    var i := 0;
    while i < n
      invariant 0 <= i <= n
      invariant field[..] == f[..off] + XorPrefix(f[off..], xorValues, i)
    {
      XorPrefixStep(f, off, xorValues, i);
      field[off + i] := field[off + i] ^ xorValues[i];
      i := i + 1;
    }
  }

  /** One more iteration of the loop of `xor_bits_bytewise`. */
  lemma XorPrefixStep(f: seq<Byte>, off: nat, x: seq<Byte>, i: nat)
    requires off + i < |f| && i < |x|
    ensures (f[..off] + XorPrefix(f[off..], x, i))[off + i] == f[off + i]
    ensures (f[..off] + XorPrefix(f[off..], x, i))[off + i := f[off + i] ^ x[i]]
         == f[..off] + XorPrefix(f[off..], x, i + 1)
  {
    XorWindowGrow(f[off..], x, 0, i);
  }

  /** The XOR loop inside `crunch`: the window of `polyBuf` at `k`, `w`
      bytes wide, XORed into `fileBuf`. */
  method XorWindowInPlace(fileBuf: array<Byte>, polyBuf: array<Byte>, k: nat, w: nat)
    requires fileBuf != polyBuf
    requires k + w <= fileBuf.Length && k + w <= polyBuf.Length
    modifies fileBuf
    ensures fileBuf[..] == XorWindow(old(fileBuf[..]), polyBuf[..], k, w)
  {
    ghost var f := fileBuf[..];
    var i := k;
    while i < k + w
      invariant k <= i <= k + w
      invariant fileBuf[..] == XorWindow(f, polyBuf[..], k, i - k)
    {
      XorWindowGrow(f, polyBuf[..], k, i - k);
      fileBuf[i] := fileBuf[i] ^ polyBuf[i];
      i := i + 1;
    }
  }

  /** Crunching bits lo..mid-1 and then mid..hi-1 is crunching bits
      lo..hi-1. */
  lemma {:induction false} CrunchedCompose(w: Work, pb: nat, lo: nat, mid: nat, hi: nat)
    requires lo <= mid <= hi && Room(w, pb, lo, mid) && Room(Crunched(w, pb, lo, mid), pb, mid, hi)
    ensures Room(w, pb, lo, hi)
    ensures Crunched(w, pb, lo, hi) == Crunched(Crunched(w, pb, lo, mid), pb, mid, hi)
  {
    if hi > mid {
      var t := hi - 1;
      var u := Crunched(w, pb, lo, mid);
      if mid < t {
        ByteStartMono(t - 1, t);
      }
      CrunchedCompose(w, pb, lo, mid, t);
      CrunchedLast(u, pb, mid, hi, t);
      CrunchedLast(w, pb, lo, hi, t);
    }
  }

  /** The last step of a run. */
  lemma CrunchedLast(w: Work, pb: nat, lo: nat, hi: nat, t: nat)
    requires lo <= t && t + 1 == hi && Room(w, pb, lo, t) && StepFits(Crunched(w, pb, lo, t), t, pb)
    ensures Room(w, pb, lo, hi)
    ensures Crunched(w, pb, lo, hi) == BitStep(Crunched(w, pb, lo, t), t, pb)
  {
    assert StepFits(w, t, pb);
    assert Crunched(w, pb, lo, hi) == LastStep(w, pb, lo, hi);
  }

  /** One step of `crunch` on the byte buffers is BitStep on their bit
      strings. */
  lemma BitStepBytes(f: seq<Byte>, p: seq<Byte>, k: nat, j: nat, pb: nat)
    requires k < |f| && k + pb <= |f| && k + pb < |p| && j < 8
    ensures StepFits(Work(BitsOf(f), BitsOf(p)), 8 * k + j, pb)
    ensures BitStep(Work(BitsOf(f), BitsOf(p)), 8 * k + j, pb)
         == Work(BitsOf(if f[k] & TopMask(j) != 0 then XorWindow(f, p, k, pb) else f),
                 BitsOf(ShiftWindow(p, k, pb)))
  {
    ByteStartOf(k, j);
    BitStepFile(f, p, k, j, pb, f[k] & TopMask(j) != 0);
    ShiftWindowBits(p, k, pb);
  }

  lemma BitStepFile(f: seq<Byte>, p: seq<Byte>, k: nat, j: nat, pb: nat, hit: bool)
    requires k < |f| && k + pb <= |f| && k + pb < |p| && j < 8
    requires hit == (f[k] & TopMask(j) != 0)
    requires StepFits(Work(BitsOf(f), BitsOf(p)), 8 * k + j, pb) && ByteStart(8 * k + j) == 8 * k
    ensures BitStep(Work(BitsOf(f), BitsOf(p)), 8 * k + j, pb).file
         == BitsOf(if hit then XorWindow(f, p, k, pb) else f)
  {
    BitAt(f, 8 * k + j, k, j);
    if hit {
      XorWindowBits(f, p, k, pb);
    }
  }

  /** The buffers f and p hold the crunch of w over bits lo..t-1. */
  predicate CrunchedTo(w: Work, pb: nat, lo: nat, t: nat, f: seq<Byte>, p: seq<Byte>)
  {
    Room(w, pb, lo, t) && Work(BitsOf(f), BitsOf(p)) == Crunched(w, pb, lo, t)
  }

  /** `BitStepBytes` at bit t = 8k + j. */
  lemma BitStepAt(f: seq<Byte>, p: seq<Byte>, k: nat, j: nat, pb: nat, t: nat)
    requires k < |f| && k + pb <= |f| && k + pb < |p| && j < 8 && t == 8 * k + j
    ensures StepFits(Work(BitsOf(f), BitsOf(p)), t, pb)
    ensures BitStep(Work(BitsOf(f), BitsOf(p)), t, pb)
         == Work(BitsOf(if f[k] & TopMask(j) != 0 then XorWindow(f, p, k, pb) else f),
                 BitsOf(ShiftWindow(p, k, pb)))
  {
    BitStepBytes(f, p, k, j, pb);
  }

  /** The body of the inner loop of `crunch`, at bit `bitOffset` of byte
      `byteOffset`, which is bit t: one more step of the crunch that
      started at bit `lo` from the buffers `w`. */
  method CrunchBit(fileBuf: array<Byte>, polyBuf: array<Byte>, byteOffset: nat, bitOffset: nat, polyBytes: nat,
                   ghost w: Work, ghost lo: nat, ghost t: nat)
    requires fileBuf != polyBuf && bitOffset < 8 && t == 8 * byteOffset + bitOffset
    requires byteOffset < fileBuf.Length && byteOffset + polyBytes <= fileBuf.Length
    requires byteOffset + polyBytes < polyBuf.Length
    requires CrunchedTo(w, polyBytes, lo, t, fileBuf[..], polyBuf[..])
    modifies fileBuf, polyBuf
    ensures CrunchedTo(w, polyBytes, lo, t + 1, fileBuf[..], polyBuf[..])
  {
    BitStepAt(fileBuf[..], polyBuf[..], byteOffset, bitOffset, polyBytes, t);
    CrunchedLast(w, polyBytes, lo, t + 1, t);
    TopMaskShift(bitOffset);
    if fileBuf[byteOffset] & (0x80 >> bitOffset) != 0 {
      XorWindowInPlace(fileBuf, polyBuf, byteOffset, polyBytes);
    }
    ShiftOneRight(polyBuf, byteOffset, polyBytes);
  }

  /** The inner loop of `crunch`: the eight steps of byte `byteOffset`,
      continuing the crunch that started at bit `lo` from the buffers `w`. */
  method CrunchByte(fileBuf: array<Byte>, polyBuf: array<Byte>, byteOffset: nat, polyBytes: nat,
                    ghost w: Work, ghost lo: nat, ghost t0: nat)
    requires fileBuf != polyBuf && t0 == 8 * byteOffset
    requires byteOffset < fileBuf.Length && byteOffset + polyBytes <= fileBuf.Length
    requires byteOffset + polyBytes < polyBuf.Length
    requires CrunchedTo(w, polyBytes, lo, t0, fileBuf[..], polyBuf[..])
    modifies fileBuf, polyBuf
    ensures CrunchedTo(w, polyBytes, lo, t0 + 8, fileBuf[..], polyBuf[..])
  {
    var bitOffset := 0;
    ghost var t := t0;
    while bitOffset < 8
      invariant 0 <= bitOffset <= 8 && t == t0 + bitOffset
      invariant CrunchedTo(w, polyBytes, lo, t, fileBuf[..], polyBuf[..])
    {
      CrunchBit(fileBuf, polyBuf, byteOffset, bitOffset, polyBytes, w, lo, t);
      bitOffset := bitOffset + 1;
      t := t + 1;
    }
  }

  /** `crunch(fileBuf, polyBuf, bytesToProcess, polyBytes, &remainder)`:
      the eight steps of every byte 0..bytesToProcess-1; returns the offset
      of the remainder in `fileBuf`. */
  method Crunch(fileBuf: array<Byte>, polyBuf: array<Byte>, bytesToProcess: nat, polyBytes: nat)
    returns (remainder: nat)
    requires fileBuf != polyBuf
    requires bytesToProcess <= fileBuf.Length && bytesToProcess + polyBytes <= fileBuf.Length + 1
    requires bytesToProcess + polyBytes <= polyBuf.Length
    modifies fileBuf, polyBuf
    ensures remainder == bytesToProcess
    ensures Room(Work(BitsOf(old(fileBuf[..])), BitsOf(old(polyBuf[..]))), polyBytes, 0, 8 * bytesToProcess)
    ensures Work(BitsOf(fileBuf[..]), BitsOf(polyBuf[..]))
         == Crunched(Work(BitsOf(old(fileBuf[..])), BitsOf(old(polyBuf[..]))), polyBytes, 0, 8 * bytesToProcess)
  {
    ghost var w0 := Work(BitsOf(fileBuf[..]), BitsOf(polyBuf[..]));
    var byteOffset := 0;
    ghost var t := 0;
    while byteOffset < bytesToProcess
      invariant 0 <= byteOffset <= bytesToProcess && t == 8 * byteOffset
      invariant CrunchedTo(w0, polyBytes, 0, t, fileBuf[..], polyBuf[..])
    {
      CrunchByte(fileBuf, polyBuf, byteOffset, polyBytes, w0, 0, t);
      byteOffset := byteOffset + 1;
      t := t + 8;
    }
    remainder := bytesToProcess;
  }
}
