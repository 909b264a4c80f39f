/**
 * The rounds of the do-while loop of `calculate_crc_from_file_bitwise`
 * (src/crcbit.c), stated on the contents of the two buffers: what they
 * hold before each call of `crunch`, what they hold after it, and how the
 * carry, the read and `realloc` take one round to the next.  The buffers
 * are compared with the whole-message state of CrcBitFile: every round is
 * a window of that state.
 */
module Rounds {
  import opened Bits
  import opened CrcTypes
  import opened CrcBit
  import opened CrcBitFile
  import opened Chunks

  /** The smaller of two counts: what `read` returns when asked for
      `count` bytes with `left` bytes left in the file. */
  function Min(count: nat, left: nat): (n: nat)
    ensures n <= count && n <= left && (n == count || n == left)
  {
    if count <= left then count else left
  }

  /** The bytes after the file on the last chunk: the stale tail the loop
      leaves there, or zeros when they are cleared. */
  function Tail(data: seq<Byte>, p: BitParam, bufSize: nat, clear: bool): (e: seq<Byte>)
    requires |p.coeff| < bufSize
    ensures |e| == ChecksumSize(p.degree) + 1
  {
    if clear then Zeros(ChecksumSize(p.degree) + 1) else StaleTail(data, p, bufSize)
  }

  /** The remainder a run ends with: the remainder of the whole message,
      disturbed by the leftover bytes unless the tail is cleared. */
  function Expected(data: seq<Byte>, p: BitParam, bufSize: nat, clear: bool): (r: seq<Byte>)
    requires |p.coeff| < bufSize
    ensures |r| == ChecksumSize(p.degree)
    ensures clear || |data| <= bufSize ==> r == Remainder(data, p)
  {
    if clear then Remainder(data, p)
    else
      XorZeros(Remainder(data, p));
      XorBytes(Remainder(data, p), Leftover(data, p, bufSize))
  }

  /** The buffers before `crunch` over k bytes of a chunk of m bytes that
      starts at message byte a: the message as the bytes before a left it,
      with t XORed in from byte k on, and the generator at the front. */
  predicate Loaded(data: seq<Byte>, p: BitParam, a: nat, k: nat, m: nat, t: seq<Byte>, f: seq<Byte>, q: seq<Byte>)
  {
    a + k <= |data| && k + |p.coeff| <= m && a + m <= |data| + ChecksumSize(p.degree) + 1 && |t| == m - k
    && f == XorBytes(Message(data, p, a)[a..a + m], Zeros(k) + t) && q == p.coeff + Zeros(m - |p.coeff|)
  }

  /** The same buffers after `crunch`: the message as the bytes up to
      a + k left it, t still XORed in, the generator k bytes on. */
  predicate Advanced(data: seq<Byte>, p: BitParam, a: nat, k: nat, m: nat, t: seq<Byte>, f: seq<Byte>, q: seq<Byte>)
  {
    a + k <= |data| && k + |p.coeff| <= m && a + m <= |data| + ChecksumSize(p.degree) + 1 && |t| == m - k
    && f == XorBytes(Message(data, p, a + k)[a..a + m], Zeros(k) + t)
    && q == Zeros(k) + p.coeff + Zeros(m - |p.coeff| - k)
  }

  /** The buffers at the top of a round that is not the first: the chunk
      before ended at message byte g and started at c, the file position
      is polyBytes bytes past g, and the generator is at the end of the
      generator buffer.  The last chunk starts where the chunks from g on
      say it does. */
  predicate Carried(data: seq<Byte>, p: BitParam, bufSize: nat, c: nat, g: nat, pos: nat, f: seq<Byte>, q: seq<Byte>)
  {
    |p.coeff| < bufSize && g == c + (bufSize - |p.coeff|) && 0 < g && pos == g + |p.coeff| && pos < |data|
    && FinalStart(|data|, bufSize, |p.coeff|) == g + FinalStart(|data| - g, bufSize, |p.coeff|)
    && f == Message(data, p, g)[c..c + bufSize] && q == Zeros(bufSize - |p.coeff|) + p.coeff
  }

  /** After a chunk that is not the last, the carried state of the next
      round. */
  lemma NotLastAdvanced(data: seq<Byte>, p: BitParam, bufSize: nat, a: nat, s: nat, f: seq<Byte>, q: seq<Byte>)
    requires |p.coeff| < bufSize && s == bufSize - |p.coeff|
    requires Advanced(data, p, a, s, bufSize, Zeros(|p.coeff|), f, q)
    ensures f == Message(data, p, a + s)[a..a + bufSize]
    ensures q == Zeros(s) + p.coeff
  {
    XorTwoZeros(Message(data, p, a + s)[a..a + bufSize], s, |p.coeff|);
    assert Zeros(bufSize - |p.coeff| - s) == [];
  }

  /** After the last chunk, the remainder bytes at `bytes_to_process`. */
  lemma LastAdvanced(data: seq<Byte>, p: BitParam, bufSize: nat, clear: bool, a: nat, k: nat, size: nat,
                     f: seq<Byte>, q: seq<Byte>)
    requires |p.coeff| < bufSize && a + k == |data| && size == k + ChecksumSize(p.degree) + 1
    requires Advanced(data, p, a, k, size, Tail(data, p, bufSize, clear), f, q)
    ensures k + ChecksumSize(p.degree) <= |f|
    ensures f[k..k + ChecksumSize(p.degree)] == Expected(data, p, bufSize, clear)
  {
    if clear {
      XorWindowAt(Message(data, p, |data|), a, k, |data|, size, ChecksumSize(p.degree), Zeros(ChecksumSize(p.degree) + 1), f);
      XorZeros(Remainder(data, p));
    } else {
      FinalRemainder(data, p, bufSize, a, k, size, f);
    }
  }

  // ---------------------------------------------------------------------
  // Loading a chunk
  // ---------------------------------------------------------------------

  /** The first round of a file longer than the buffer: the whole buffer
      read, reflected and XORed with the initial value is the first chunk
      of the message. */
  lemma FirstRound(data: seq<Byte>, p: BitParam, bufSize: nat, r: nat, rd: seq<Byte>, f: seq<Byte>, q: seq<Byte>)
    requires |p.coeff| < bufSize < |data| && r == Min(bufSize, |data|)
    requires rd == Splice(Zeros(bufSize), 0, CheckReflect(data[0..0 + r], p.reflectInput))
    requires f == rd[..0] + XorPrefix(rd[0..], p.initialXor, ChecksumSize(p.degree))
    requires q == p.coeff + Zeros(bufSize - |p.coeff|)
    ensures ReadyNext(data, p, bufSize, 0, bufSize - |p.coeff|, r, f, q)
  {
    FromStart(rd);
    FirstChunk(data, p, bufSize, 0, r);
    XorTwoZeros(Message(data, p, 0)[0..0 + bufSize], bufSize - |p.coeff|, |p.coeff|);
  }

  /** The only round of a file that fits the buffer: after `realloc` to
      the file and checksum_size + 1 bytes, the whole message. */
  lemma OnlyRound(data: seq<Byte>, p: BitParam, bufSize: nat, clear: bool, r: nat, size: nat,
                  rd: seq<Byte>, f: seq<Byte>, q: seq<Byte>, f1: seq<Byte>, q1: seq<Byte>)
    requires |p.coeff| < bufSize && 0 < |data| <= bufSize && r == Min(bufSize, |data|)
    requires size == r + ChecksumSize(p.degree) + 1
    requires rd == Splice(Zeros(bufSize), 0, CheckReflect(data[0..0 + r], p.reflectInput))
    requires f == rd[..0] + XorPrefix(rd[0..], p.initialXor, ChecksumSize(p.degree))
    requires q == p.coeff + Zeros(bufSize - |p.coeff|)
    requires f1 == Resized(f, size) && q1 == Resized(q, size)
    ensures ReadyLast(data, p, bufSize, clear, 0, r, f1, q1)
  {
    FromStartXor(rd, p.initialXor, ChecksumSize(p.degree), f);
    FirstIsFinal(data, p, bufSize, 0, r, size, f);
    assert Tail(data, p, bufSize, clear) == StaleTail(data, p, bufSize);
    ResizedPadding(p.coeff, bufSize - |p.coeff|, size);
  }

  /** A round after the first that does not reach the end of the file:
      the carry and the read give the next chunk of the message. */
  lemma NextRound(data: seq<Byte>, p: BitParam, bufSize: nat, c: nat, g: nat, pos: nat, f: seq<Byte>, q: seq<Byte>,
                  r: nat, f1: seq<Byte>, q1: seq<Byte>)
    requires Carried(data, p, bufSize, c, g, pos, f, q) == true
    requires r == Min(bufSize - |p.coeff|, |data| - pos) && pos + r < |data|
    requires f1 == Splice(Splice(f, 0, f[bufSize - |p.coeff|..bufSize - |p.coeff| + |p.coeff|]), |p.coeff|,
                          CheckReflect(data[pos..pos + r], p.reflectInput))
    requires q1 == Splice(Splice(q, 0, q[bufSize - |p.coeff|..bufSize - |p.coeff| + |p.coeff|]), |p.coeff|,
                          Zeros(bufSize - |p.coeff|))
    ensures ReadyNext(data, p, bufSize, g, bufSize - |p.coeff|, pos + r, f1, q1) == true
  {
    NextChunk(data, p, bufSize, c, g, f, pos, r, f1);
    XorTwoZeros(Message(data, p, g)[g..g + bufSize], bufSize - |p.coeff|, |p.coeff|);
    PolyCarry(p.coeff, bufSize, q, q1);
    FinalStartStep(|data|, bufSize, |p.coeff|, g);
  }

  /** The last round of a file longer than the buffer: after the carry,
      the read and `realloc`, the message from byte g with the stale tail
      (or, cleared, zeros) after the end of the file. */
  lemma LastRound(data: seq<Byte>, p: BitParam, bufSize: nat, clear: bool, c: nat, g: nat, pos: nat,
                  f: seq<Byte>, q: seq<Byte>, r: nat, size: nat, f1: seq<Byte>, q1: seq<Byte>, f2: seq<Byte>, q2: seq<Byte>)
    requires Carried(data, p, bufSize, c, g, pos, f, q)
    requires r == Min(bufSize - |p.coeff|, |data| - pos) && pos + r == |data|
    requires size == |p.coeff| + r + ChecksumSize(p.degree) + 1
    requires f1 == Splice(Splice(f, 0, f[bufSize - |p.coeff|..bufSize - |p.coeff| + |p.coeff|]), |p.coeff|,
                          CheckReflect(data[pos..pos + r], p.reflectInput))
    requires q1 == Splice(Splice(q, 0, q[bufSize - |p.coeff|..bufSize - |p.coeff| + |p.coeff|]), |p.coeff|,
                          Zeros(bufSize - |p.coeff|))
    requires f2 == Resized(f1, size) && q2 == Resized(q1, size)
    ensures Loaded(data, p, g, |p.coeff| + r, size, StaleTail(data, p, bufSize), f2, q2)
  {
    assert |data| - g <= bufSize && FinalStart(|data| - g, bufSize, |p.coeff|) == 0;
    LastChunk(data, p, bufSize, c, g, f, pos, r, |p.coeff| + r, size, f1);
    LastPoly(p.coeff, bufSize, size, q, q1, q2);
  }

  /** The last chunk of a file longer than the buffer is ready for
      `crunch`, with its tail cleared or not. */
  lemma LastReady(data: seq<Byte>, p: BitParam, bufSize: nat, clear: bool, g: nat, k: nat, size: nat,
                  f: seq<Byte>, q: seq<Byte>, f1: seq<Byte>)
    requires |p.coeff| < bufSize && 0 < g && g + k == |data| && |p.coeff| <= k && size == k + ChecksumSize(p.degree) + 1
    requires Loaded(data, p, g, k, size, StaleTail(data, p, bufSize), f, q)
    requires f1 == if clear then Splice(f, k, Zeros(ChecksumSize(p.degree) + 1)) else f
    ensures ReadyLast(data, p, bufSize, clear, g, k, f1, q)
  {
    if clear {
      ClearedRound(data, p, bufSize, g, k, size, f, q, f1);
    }
  }

  /** The generator buffer of the last round, after the carry and
      `realloc`. */
  lemma LastPoly(coeff: seq<Byte>, bufSize: nat, size: nat, q: seq<Byte>, q1: seq<Byte>, q2: seq<Byte>)
    requires |coeff| < bufSize && |coeff| <= size && q == Zeros(bufSize - |coeff|) + coeff
    requires q1 == Splice(Splice(q, 0, q[bufSize - |coeff|..bufSize - |coeff| + |coeff|]), |coeff|, Zeros(bufSize - |coeff|))
    requires q2 == Resized(q1, size)
    ensures q2 == coeff + Zeros(size - |coeff|)
  {
    PolyCarry(coeff, bufSize, q, q1);
    ResizedPadding(coeff, bufSize - |coeff|, size);
  }

  /** Clearing the bytes after the file on the last chunk turns the stale
      tail into zeros. */
  lemma ClearedRound(data: seq<Byte>, p: BitParam, bufSize: nat, g: nat, k: nat, size: nat,
                     f: seq<Byte>, q: seq<Byte>, f1: seq<Byte>)
    requires |p.coeff| < bufSize && 0 < g && g + k == |data| && |p.coeff| <= k && size == k + ChecksumSize(p.degree) + 1
    requires Loaded(data, p, g, k, size, StaleTail(data, p, bufSize), f, q)
    requires f1 == Splice(f, k, Zeros(ChecksumSize(p.degree) + 1))
    ensures Loaded(data, p, g, k, size, Zeros(ChecksumSize(p.degree) + 1), f1, q)
  {
    var m := Message(data, p, g);
    MessageEnd(data, p, g, ChecksumSize(p.degree) + 1);
    SliceOfSlice(m, g, g + size, k, size, |data|, |data| + ChecksumSize(p.degree) + 1);
    ClearTail(m[g..g + size], k, StaleTail(data, p, bufSize), f, f1);
  }

  // ---------------------------------------------------------------------
  // Plain byte strings
  // ---------------------------------------------------------------------

  /** The slices of a string at its start. */
  lemma FromStart<T>(s: seq<T>)
    ensures s[..0] == [] && s[0..] == s
  {
  }

  /** The initial value XORed in at the start of the whole read buffer. */
  lemma FromStartXor(rd: seq<Byte>, x: seq<Byte>, n: nat, f: seq<Byte>)
    requires n <= |rd| && n <= |x|
    requires f == rd[..0] + XorPrefix(rd[0..], x, n)
    ensures f == XorPrefix(rd, x, n)
  {
    FromStart(rd);
  }

  /** `realloc` of a string that ends in zeros. */
  lemma ResizedPadding(a: seq<Byte>, z: nat, size: nat)
    requires |a| <= size
    ensures Resized(a + Zeros(z), size) == a + Zeros(size - |a|)
  {
    var r := Resized(a + Zeros(z), size);
    forall i | 0 <= i < size ensures r[i] == (a + Zeros(size - |a|))[i] {
      if i < |a| + z {
        assert r[i] == (a + Zeros(z))[i];
      }
    }
  }

  /** The carry of the generator buffer: the generator moves from the end
      to the front, and the rest is zeroed. */
  lemma PolyCarry(coeff: seq<Byte>, bufSize: nat, q: seq<Byte>, q1: seq<Byte>)
    requires |coeff| < bufSize && q == Zeros(bufSize - |coeff|) + coeff
    requires q1 == Splice(Splice(q, 0, q[bufSize - |coeff|..bufSize - |coeff| + |coeff|]), |coeff|, Zeros(bufSize - |coeff|))
    ensures q1 == coeff + Zeros(bufSize - |coeff|)
  {
    assert q[bufSize - |coeff|..bufSize - |coeff| + |coeff|] == coeff;
    var q0 := Splice(q, 0, coeff);
    assert q0 == coeff + q[|coeff|..];
    assert q1 == q0[..|coeff|] + Zeros(bufSize - |coeff|) + q0[bufSize..];
    assert q0[..|coeff|] == coeff;
  }

  /** Zeros written over the tail of an XOR with a tail `e`, onto a string
      whose tail is zero: the XOR with a zero tail. */
  lemma ClearTail(m: seq<Byte>, k: nat, e: seq<Byte>, f: seq<Byte>, f1: seq<Byte>)
    requires |m| == k + |e| && m[k..] == Zeros(|e|)
    requires f == XorBytes(m, Zeros(k) + e) && f1 == Splice(f, k, Zeros(|e|))
    ensures f1 == XorBytes(m, Zeros(k) + Zeros(|e|))
  {
    var x := XorBytes(m, Zeros(k) + Zeros(|e|));
    forall i | 0 <= i < |m| ensures f1[i] == x[i] {
      if i < k {
        assert f1[i] == f[i];
      } else {
        assert m[i] == m[k..][i - k] == 0;
        assert f1[i] == Zeros(|e|)[i - k];
      }
    }
  }

  /** One more chunk that is not the last. */
  lemma FinalStartStep(n: nat, bufSize: nat, pb: nat, g: nat)
    requires pb < bufSize && g + bufSize < n
    ensures g + FinalStart(n - g, bufSize, pb) == (g + (bufSize - pb)) + FinalStart(n - (g + (bufSize - pb)), bufSize, pb)
  {
    assert n - g - (bufSize - pb) == n - (g + (bufSize - pb));
  }

  // ---------------------------------------------------------------------
  // The steps after the loop
  // ---------------------------------------------------------------------

  /** The steps after the loop on plain bytes: the final XOR over the
      remainder bytes and the reflection of them leave, at the remainder,
      the reflected XOR of what was there. */
  lemma FinishSteps(f: seq<Byte>, off: nat, p: BitParam, e: seq<Byte>, f1: seq<Byte>, f2: seq<Byte>)
    requires off + ChecksumSize(p.degree) <= |f| && ChecksumSize(p.degree) <= |p.finalXor|
    requires f[off..off + ChecksumSize(p.degree)] == e
    requires f1 == f[..off] + XorPrefix(f[off..], p.finalXor, ChecksumSize(p.degree))
    requires f2 == Splice(f1, off, CheckReflect(f1[off..off + ChecksumSize(p.degree)], p.reflectRemainder))
    ensures Emitted(f2[off..off + ChecksumSize(p.degree)], p.reflectRemainder) == Finish(e, p)
  {
    var n := ChecksumSize(p.degree);
    XorPrefixPrefix(f[off..], p.finalXor, n, n);
    assert f[off..][..n] == e;
    assert f1[off..off + n] == XorPrefix(f[off..], p.finalXor, n)[..n];
    var r := CheckReflect(f1[off..off + n], p.reflectRemainder);
    assert f2 == f1[..off] + r + f1[off + n..];
    assert f2[off..off + n] == r;
  }

  /** The buffers just before `crunch` on the last chunk: k bytes to
      process from message byte a up to the end of the file, then
      checksum_size + 1 bytes with the tail. */
  predicate ReadyLast(data: seq<Byte>, p: BitParam, bufSize: nat, clear: bool, a: nat, k: nat, f: seq<Byte>, q: seq<Byte>)
  {
    |p.coeff| < bufSize && a + k == |data| && |f| == k + ChecksumSize(p.degree) + 1
    && Loaded(data, p, a, k, |f|, Tail(data, p, bufSize, clear), f, q)
  }

  /** The buffers just before `crunch` on a chunk that is not the last:
      bufSize - polyBytes bytes to process from message byte a, the file
      position polyBytes bytes past them, and the last chunk where the
      chunks from a + k on say it is. */
  predicate ReadyNext(data: seq<Byte>, p: BitParam, bufSize: nat, a: nat, k: nat, pos: nat, f: seq<Byte>, q: seq<Byte>)
  {
    |p.coeff| < bufSize && k == bufSize - |p.coeff| && |f| == bufSize && pos == a + k + |p.coeff| && pos < |data|
    && FinalStart(|data|, bufSize, |p.coeff|) == (a + k) + FinalStart(|data| - (a + k), bufSize, |p.coeff|)
    && Loaded(data, p, a, k, bufSize, Zeros(|p.coeff|), f, q)
  }

  /** `crunch` over the last chunk leaves the remainder bytes after the
      processed ones. */
  lemma AfterLast(data: seq<Byte>, p: BitParam, bufSize: nat, clear: bool, a: nat, k: nat,
                  f0: seq<Byte>, q0: seq<Byte>, f1: seq<Byte>, q1: seq<Byte>)
    requires ReadyLast(data, p, bufSize, clear, a, k, f0, q0)
    ensures Room(Work(BitsOf(f0), BitsOf(q0)), |p.coeff|, 0, 8 * k)
    ensures Work(BitsOf(f1), BitsOf(q1)) == Crunched(Work(BitsOf(f0), BitsOf(q0)), |p.coeff|, 0, 8 * k)
        ==> k + ChecksumSize(p.degree) <= |f1| && f1[k..k + ChecksumSize(p.degree)] == Expected(data, p, bufSize, clear)
  {
    var t, m := Tail(data, p, bufSize, clear), |f0|;
    assert Loaded(data, p, a, k, m, t, f0, q0);
    ChunkCrunch(data, p, a, k, a + k, m, t, f0, q0, f1, q1);
    if Work(BitsOf(f1), BitsOf(q1)) == Crunched(Work(BitsOf(f0), BitsOf(q0)), |p.coeff|, 0, 8 * k) {
      assert Advanced(data, p, a, k, m, t, f1, q1);
      LastAdvanced(data, p, bufSize, clear, a, k, m, f1, q1);
    }
  }

  /** `crunch` over a chunk that is not the last leaves the top of the
      next round. */
  lemma AfterNext(data: seq<Byte>, p: BitParam, bufSize: nat, a: nat, k: nat, pos: nat,
                  f0: seq<Byte>, q0: seq<Byte>, f1: seq<Byte>, q1: seq<Byte>)
    requires ReadyNext(data, p, bufSize, a, k, pos, f0, q0)
    ensures Room(Work(BitsOf(f0), BitsOf(q0)), |p.coeff|, 0, 8 * k)
    ensures Work(BitsOf(f1), BitsOf(q1)) == Crunched(Work(BitsOf(f0), BitsOf(q0)), |p.coeff|, 0, 8 * k)
        ==> Carried(data, p, bufSize, a, a + k, pos, f1, q1)
  {
    var t := Zeros(|p.coeff|);
    assert Loaded(data, p, a, k, bufSize, t, f0, q0);
    ChunkCrunch(data, p, a, k, a + k, bufSize, t, f0, q0, f1, q1);
    if Work(BitsOf(f1), BitsOf(q1)) == Crunched(Work(BitsOf(f0), BitsOf(q0)), |p.coeff|, 0, 8 * k) {
      assert Advanced(data, p, a, k, bufSize, t, f1, q1);
      NotLastAdvanced(data, p, bufSize, a, k, f1, q1);
    }
  }
}
