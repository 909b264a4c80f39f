/**
 * What `crunch` computes, on the bit strings of its two buffers:
 * which bits a run of steps may change, that a run inside a window of the
 * buffers is the same run on the window, how the polynomial moves, that a
 * tail beyond the tested bits passes through unchanged, and that for a
 * generator that fits the XOR window the file buffer undergoes GF(2) long
 * division.
 */
module CrunchTheory {
  import opened Division
  import opened CrcBit

  /** ByteStart can be taken apart at a byte boundary. */
  lemma {:induction false} ByteStartShift(t: nat, a: nat)
    requires a % 8 == 0 && a <= t
    ensures ByteStart(t - a) == ByteStart(t) - a
  {
    if a > 0 {
      ByteStartShift(t - 8, a - 8);
    }
  }

  /** Room for a run is room for every part of it. */
  lemma RoomMono(w: Work, pb: nat, lo: nat, mid: nat, hi: nat)
    requires lo <= mid <= hi && Room(w, pb, lo, hi)
    ensures Room(w, pb, lo, mid) && Room(w, pb, mid, hi)
  {
    if lo < mid {
      ByteStartMono(mid - 1, hi - 1);
    }
  }

  /** Whether a step fits depends on the lengths of the buffers only. */
  lemma StepFitsLengths(v: Work, w: Work, t: nat, pb: nat)
    requires StepFits(v, t, pb) && |w.file| == |v.file| && |w.poly| == |v.poly|
    ensures StepFits(w, t, pb)
  {
  }

  // ---------------------------------------------------------------------
  // Frame
  // ---------------------------------------------------------------------

  /** The bits of `s` from `from` on are those of `s0`. */
  predicate SameFrom(s: seq<bool>, s0: seq<bool>, from: nat)
  {
    |s| == |s0| && forall i :: from <= i < |s| ==> s[i] == s0[i]
  }

  /** The step at bit `t` changes no file bit from the end of its XOR
      window on. */
  lemma BitStepFrame(w: Work, t: nat, pb: nat, from: nat)
    requires StepFits(w, t, pb) && ByteStart(t) + 8 * pb <= from
    ensures SameFrom(BitStep(w, t, pb).file, w.file, from)
  {
  }

  /** `crunch` over bits lo..hi-1 changes no file bit after the XOR window
      of its last step. */
  lemma {:induction false} CrunchedFrame(w: Work, pb: nat, lo: nat, hi: nat, from: nat)
    requires lo < hi && Room(w, pb, lo, hi) && ByteStart(hi - 1) + 8 * pb <= from
    ensures SameFrom(Crunched(w, pb, lo, hi).file, w.file, from)
  {
    if hi - 1 > lo {
      RoomMono(w, pb, lo, hi - 1, hi);
      ByteStartMono(hi - 2, hi - 1);
      CrunchedFrame(w, pb, lo, hi - 1, from);
    }
    BitStepFrame(Crunched(w, pb, lo, hi - 1), hi - 1, pb, from);
  }

  // ---------------------------------------------------------------------
  // Windows: translation and truncation
  // ---------------------------------------------------------------------

  /** The bits a..a+m-1 of both buffers. */
  function Cut(w: Work, a: nat, m: nat): (r: Work)
    requires a + m <= |w.file| && a + m <= |w.poly|
    ensures |r.file| == m && |r.poly| == m
  {
    Work(w.file[a..a + m], w.poly[a..a + m])
  }

  /** A step inside a byte-aligned window does to the window what it does
      to the whole buffers. */
  lemma BitStepWindow(w: Work, t: nat, pb: nat, a: nat, m: nat)
    requires a % 8 == 0 && a <= t && a + m <= |w.file| && a + m <= |w.poly|
    requires StepFits(Cut(w, a, m), t - a, pb)
    ensures StepFits(w, t, pb)
    ensures BitStep(Cut(w, a, m), t - a, pb) == Cut(BitStep(w, t, pb), a, m)
  {
    ByteStartShift(t, a);
    BitStepWindowFile(w, t, pb, a, m);
    BitStepWindowPoly(w, t, pb, a, m);
  }

  lemma BitStepWindowFile(w: Work, t: nat, pb: nat, a: nat, m: nat)
    requires a % 8 == 0 && a <= t && a + m <= |w.file| && a + m <= |w.poly|
    requires StepFits(Cut(w, a, m), t - a, pb) && StepFits(w, t, pb) && ByteStart(t - a) == ByteStart(t) - a
    ensures BitStep(Cut(w, a, m), t - a, pb).file == BitStep(w, t, pb).file[a..a + m]
  {
    var b := ByteStart(t);
    assert Cut(w, a, m).file[t - a] == w.file[t];
    if w.file[t] {
      XorWindowCut(w.file, w.poly, b, b + 8 * pb, a, m);
    }
  }

  lemma BitStepWindowPoly(w: Work, t: nat, pb: nat, a: nat, m: nat)
    requires a % 8 == 0 && a <= t && a + m <= |w.file| && a + m <= |w.poly|
    requires StepFits(Cut(w, a, m), t - a, pb) && StepFits(w, t, pb) && ByteStart(t - a) == ByteStart(t) - a
    ensures BitStep(Cut(w, a, m), t - a, pb).poly == BitStep(w, t, pb).poly[a..a + m]
  {
    var b := ByteStart(t);
    SlideWindow(w.poly, b, b + 8 * pb + 8, a, m);
  }

  /** XORing bits inside a window commutes with cutting the window out. */
  lemma XorWindowCut(s: seq<bool>, p: seq<bool>, lo: nat, hi: nat, a: nat, m: nat)
    requires a <= lo <= hi && hi <= a + m <= |s| && a + m <= |p|
    ensures XorBitsIn(s[a..a + m], p[a..a + m], lo - a, hi - a) == XorBitsIn(s, p, lo, hi)[a..a + m]
  {
  }

  /** Sliding bits inside a window commutes with cutting the window out. */
  lemma SlideWindow(s: seq<bool>, lo: nat, hi: nat, a: nat, m: nat)
    requires a <= lo <= hi && hi <= a + m <= |s|
    ensures SlideBits(s[a..a + m], lo - a, hi - a) == SlideBits(s, lo, hi)[a..a + m]
  {
    var x, y := SlideBits(s[a..a + m], lo - a, hi - a), SlideBits(s, lo, hi)[a..a + m];
    forall i | 0 <= i < m ensures x[i] == y[i] {
      if lo - a < i < hi - a {
        assert s[a..a + m][i - 1] == s[a + i - 1];
      }
    }
  }

  /** Translation and truncation: `crunch` on a byte-aligned window of the
      buffers does to the window what the same steps do to the whole
      buffers. */
  lemma {:induction false} CrunchedWindow(w: Work, pb: nat, lo: nat, hi: nat, a: nat, m: nat)
    requires a % 8 == 0 && a <= lo <= hi && a + m <= |w.file| && a + m <= |w.poly|
    requires Room(Cut(w, a, m), pb, lo - a, hi - a)
    ensures Room(w, pb, lo, hi)
    ensures Crunched(Cut(w, a, m), pb, lo - a, hi - a) == Cut(Crunched(w, pb, lo, hi), a, m)
  {
    if hi > lo {
      var t, s := hi - 1, hi - a - 1;
      var c := Cut(w, a, m);
      RoomMono(c, pb, lo - a, s, hi - a);
      CrunchedWindow(w, pb, lo, t, a, m);
      var v := Crunched(w, pb, lo, t);
      StepFitsLengths(c, Cut(v, a, m), s, pb);
      BitStepWindow(v, t, pb, a, m);
      CrunchedLast(c, pb, lo - a, hi - a, s);
      CrunchedLast(w, pb, lo, hi, t);
    }
  }

  // ---------------------------------------------------------------------
  // The polynomial buffer
  // ---------------------------------------------------------------------

  /** The generator placed at bit t moves to bit t+1 when the shift window
      a..b-1 holds it with a bit to spare. */
  lemma PlaceSlides(g: seq<bool>, t: nat, a: nat, b: nat, n: nat)
    requires a <= t && t + |g| < b <= n
    ensures SlideBits(Place(g, t, n), a, b) == Place(g, t + 1, n)
  {
  }

  /** A step moves a generator of at most 8 * pb bits one bit on. */
  lemma BitStepPoly(w: Work, t: nat, pb: nat, g: seq<bool>)
    requires StepFits(w, t, pb) && |g| <= 8 * pb && w.poly == Place(g, t, |w.poly|)
    ensures BitStep(w, t, pb).poly == Place(g, t + 1, |w.poly|)
  {
    PlaceSlides(g, t, ByteStart(t), ByteStart(t) + 8 * pb + 8, |w.poly|);
  }

  /** After the steps at bits lo..hi-1 the generator that stood at bit lo
      stands at bit hi, whatever the file buffer holds. */
  lemma {:induction false} CrunchedPoly(w: Work, pb: nat, g: seq<bool>, lo: nat, hi: nat)
    requires Room(w, pb, lo, hi) && |g| <= 8 * pb && w.poly == Place(g, lo, |w.poly|)
    ensures Crunched(w, pb, lo, hi).poly == Place(g, hi, |w.poly|)
  {
    if hi > lo {
      RoomMono(w, pb, lo, hi - 1, hi);
      CrunchedPoly(w, pb, g, lo, hi - 1);
      var v := Crunched(w, pb, lo, hi - 1);
      StepFitsLengths(w, v, hi - 1, pb);
      BitStepPoly(v, hi - 1, pb, g);
    }
  }

  // ---------------------------------------------------------------------
  // Bits beyond the tested ones pass through
  // ---------------------------------------------------------------------

  /** No bit of `e` below `n` is set. */
  predicate ClearBelow(e: seq<bool>, n: nat)
  {
    forall i :: 0 <= i < n && i < |e| ==> !e[i]
  }

  /** Adding bits at or after bit t+1 to the file buffer does not change
      what the step at bit t does; they come out unchanged. */
  lemma BitStepXorTail(w: Work, e: seq<bool>, t: nat, pb: nat)
    requires StepFits(w, t, pb) && |e| == |w.file| && ClearBelow(e, t + 1)
    ensures BitStep(Work(XorBits(w.file, e), w.poly), t, pb)
         == Work(XorBits(BitStep(w, t, pb).file, e), BitStep(w, t, pb).poly)
  {
    assert !e[t];
  }

  /** `crunch` over bits lo..hi-1 is linear in the bits from hi on: they
      are added to the result unchanged. */
  lemma {:induction false} CrunchedXorTail(w: Work, e: seq<bool>, pb: nat, lo: nat, hi: nat)
    requires Room(w, pb, lo, hi) && |e| == |w.file| && ClearBelow(e, hi)
    ensures Room(Work(XorBits(w.file, e), w.poly), pb, lo, hi)
    ensures Crunched(Work(XorBits(w.file, e), w.poly), pb, lo, hi)
         == Work(XorBits(Crunched(w, pb, lo, hi).file, e), Crunched(w, pb, lo, hi).poly)
  {
    if hi > lo {
      RoomMono(w, pb, lo, hi - 1, hi);
      CrunchedXorTail(w, e, pb, lo, hi - 1);
      var v := Crunched(w, pb, lo, hi - 1);
      StepFitsLengths(w, v, hi - 1, pb);
      BitStepXorTail(v, e, hi - 1, pb);
    }
  }

  // ---------------------------------------------------------------------
  // Long division
  // ---------------------------------------------------------------------

  /** XORing the window a..b-1 of a placed generator that lies inside the
      window is adding the generator. */
  lemma XorInWindow(f: seq<bool>, p: seq<bool>, g: seq<bool>, t: nat, a: nat, b: nat)
    requires p == Place(g, t, |p|) && a <= t && t + |g| <= b <= |f| && b <= |p|
    ensures XorBitsIn(f, p, a, b) == XorBits(f, Place(g, t, |f|))
  {
  }

  /** With the generator at bit t inside the XOR window, a step is a step
      of long division, and the generator moves on to bit t+1. */
  lemma BitStepDivides(w: Work, t: nat, pb: nat, g: seq<bool>)
    requires StepFits(w, t, pb) && |g| + 7 <= 8 * pb && w.poly == Place(g, t, |w.poly|)
    ensures t + |g| <= |w.file|
    ensures BitStep(w, t, pb) == Work(DivStep(w.file, g, t), Place(g, t + 1, |w.poly|))
  {
    var a := ByteStart(t);
    XorInWindow(w.file, w.poly, g, t, a, a + 8 * pb);
    BitStepPoly(w, t, pb, g);
  }

  /** `crunch` is GF(2) long division: when the generator fits the XOR
      window wherever it stands (at most 8 * pb - 7 bits), the steps at
      bits lo..hi-1 leave in the file buffer exactly what long division by
      the generator leaves, and the generator at bit hi. */
  lemma {:induction false} CrunchedDivides(w: Work, pb: nat, g: seq<bool>, lo: nat, hi: nat)
    requires Room(w, pb, lo, hi) && lo <= |w.file| && |g| + 7 <= 8 * pb && w.poly == Place(g, lo, |w.poly|)
    ensures Fits(w.file, g, lo, hi)
    ensures Crunched(w, pb, lo, hi) == Work(LongDivision(w.file, g, lo, hi), Place(g, hi, |w.poly|))
  {
    if hi > lo {
      RoomMono(w, pb, lo, hi - 1, hi);
      CrunchedDivides(w, pb, g, lo, hi - 1);
      var v := Crunched(w, pb, lo, hi - 1);
      StepFitsLengths(w, v, hi - 1, pb);
      BitStepDivides(v, hi - 1, pb, g);
    }
  }
}
