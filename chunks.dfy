/**
 * The chunked loop of `calculate_crc_from_file_bitwise` (src/crcbit.c) in
 * terms of the whole message: every buffer the loop hands to `crunch` is a
 * byte window of the message as `crunch` has left it after the bytes
 * before the window, and running `crunch` over the window advances that
 * state.  This is what makes the chunked run equal to one run over the
 * whole message, up to the stale bytes on the last chunk.
 */
module Chunks {
  import opened Bits
  import opened CrcTypes
  import opened Division
  import opened CrcBit
  import opened CrunchTheory
  import opened CrcBitFile

  // ---------------------------------------------------------------------
  // Bits of byte strings
  // ---------------------------------------------------------------------

  /** The bits of a byte-wise XOR are the XOR of the bits. */
  lemma BitsOfXor(a: seq<Byte>, b: seq<Byte>)
    requires |a| == |b|
    ensures BitsOf(XorBytes(a, b)) == XorBits(BitsOf(a), BitsOf(b))
  {
    var x, y := BitsOf(XorBytes(a, b)), XorBits(BitsOf(a), BitsOf(b));
    forall i | 0 <= i < |x| ensures x[i] == y[i] {
      BitsOfXorAt(a, b, i, i / 8, i % 8);
    }
  }

  lemma BitsOfXorAt(a: seq<Byte>, b: seq<Byte>, i: nat, m: nat, j: nat)
    requires |a| == |b| && i == 8 * m + j && j < 8 && m < |a|
    ensures BitsOf(XorBytes(a, b))[i] == (BitsOf(a)[i] != BitsOf(b)[i])
  {
    BitAt(XorBytes(a, b), i, m, j);
    BitAt(a, i, m, j);
    BitAt(b, i, m, j);
    XorBit(a[m], b[m], j);
  }

  /** The bits of zero bytes around `c` are `c`'s bits placed at bit 8k. */
  lemma BitsOfPadded(k: nat, c: seq<Byte>, l: nat)
    ensures BitsOf(Zeros(k) + c + Zeros(l)) == Place(BitsOf(c), 8 * k, 8 * (k + |c| + l))
  {
    var x, y := BitsOf(Zeros(k) + c + Zeros(l)), Place(BitsOf(c), 8 * k, 8 * (k + |c| + l));
    forall i | 0 <= i < |x| ensures x[i] == y[i] {
      PaddedAt(k, c, l, i, i / 8, i % 8);
    }
  }

  lemma PaddedAt(k: nat, c: seq<Byte>, l: nat, i: nat, m: nat, j: nat)
    requires i == 8 * m + j && j < 8 && m < k + |c| + l
    ensures BitsOf(Zeros(k) + c + Zeros(l))[i] == Place(BitsOf(c), 8 * k, 8 * (k + |c| + l))[i]
  {
    var x := Zeros(k) + c + Zeros(l);
    BitAt(x, i, m, j);
    if k <= m < k + |c| {
      assert x[m] == c[m - k];
      BitAt(c, i - 8 * k, m - k, j);
    } else {
      assert x[m] == 0;
      assert !BitOf(0, j);
    }
  }

  /** Zero bytes change nothing under XOR. */
  lemma XorZeros(a: seq<Byte>)
    ensures XorBytes(a, Zeros(|a|)) == a
  {
    forall i | 0 <= i < |a| ensures a[i] ^ 0 == a[i] {
    }
  }

  /** A window of a placed bit string is the same bits placed relative to
      the window. */
  lemma PlaceSlice(g: seq<bool>, t: nat, n: nat, a: nat, b: nat, u: nat, m: nat)
    requires a <= t && a <= b <= n && u == t - a && m == b - a
    ensures Place(g, t, n)[a..b] == Place(g, u, m)
  {
  }

  // ---------------------------------------------------------------------
  // The whole-message state
  // ---------------------------------------------------------------------

  /** Before any step the state is the augmented message. */
  lemma MessageStart(data: seq<Byte>, p: BitParam)
    ensures Message(data, p, 0) == Augmented(data, p)
  {
    MessageBits(data, p, 0);
    BitsOfInjective(Message(data, p, 0), Augmented(data, p));
  }

  /** Where the generator stands after h bytes: at bit 8h. */
  lemma PolyAt(data: seq<Byte>, p: BitParam, h: nat)
    requires h <= |data|
    ensures State(data, p, h).poly == Place(BitsOf(p.coeff), 8 * h, 8 * (|data| + ChecksumSize(p.degree) + 1))
  {
    StateCrunched(data, p, h);
    CrunchedPoly(Whole(data, p), |p.coeff|, BitsOf(p.coeff), 0, 8 * h);
  }

  /** A byte window of the generator buffer after h bytes: the generator
      bytes h - a bytes into the window, zeros around them. */
  lemma PolyWindow(data: seq<Byte>, p: BitParam, h: nat, a: nat, m: nat, k: nat, l: nat)
    requires h <= |data| && k == h - a && l == a + m - h - |p.coeff|
    requires a + m <= |data| + ChecksumSize(p.degree) + 1
    ensures State(data, p, h).poly[8 * a..8 * (a + m)] == BitsOf(Zeros(k) + p.coeff + Zeros(l))
  {
    var n, g := 8 * (|data| + ChecksumSize(p.degree) + 1), BitsOf(p.coeff);
    PolyAt(data, p, h);
    PlaceSlice(g, 8 * h, n, 8 * a, 8 * (a + m), 8 * k, 8 * (k + |p.coeff| + l));
    BitsOfPadded(k, p.coeff, l);
  }

  /** A byte window of the file buffer after h bytes, as bits. */
  lemma FileWindow(data: seq<Byte>, p: BitParam, h: nat, a: nat, m: nat)
    requires h <= |data| && a + m <= |data| + ChecksumSize(p.degree) + 1
    ensures State(data, p, h).file[8 * a..8 * (a + m)] == BitsOf(Message(data, p, h)[a..a + m])
  {
    MessageBits(data, p, h);
    BitsOfSlice(Message(data, p, h), a, a + m);
  }

  /** Bytes from the end of the last XOR window on are still those of the
      augmented message. */
  lemma MessageFrame(data: seq<Byte>, p: BitParam, h: nat, j: nat, k: nat)
    requires 0 < h <= |data| && h + |p.coeff| - 1 <= j && j + k <= |data| + ChecksumSize(p.degree) + 1
    ensures Message(data, p, h)[j..j + k] == Augmented(data, p)[j..j + k]
  {
    var pb, w := |p.coeff|, Whole(data, p);
    var m, g := Message(data, p, h), Augmented(data, p);
    MessageBits(data, p, h);
    StateCrunched(data, p, h);
    ByteStartLast(h);
    CrunchedFrame(w, pb, 0, 8 * h, 8 * (h - 1 + pb));
    assert SameFrom(BitsOf(m), BitsOf(g), 8 * (h - 1 + pb));
    SameBytesFrom(m, g, h - 1 + pb, j, k);
  }

  /** The last bit of byte h - 1 belongs to that byte. */
  lemma ByteStartLast(h: nat)
    requires 0 < h
    ensures ByteStart(8 * h - 1) == 8 * (h - 1)
  {
    ByteStartOf(h - 1, 7);
  }

  /** Byte strings whose bits agree from bit 8f on agree from byte f on. */
  lemma SameBytesFrom(m: seq<Byte>, g: seq<Byte>, f: nat, j: nat, k: nat)
    requires SameFrom(BitsOf(m), BitsOf(g), 8 * f) && f <= j && j + k <= |m|
    ensures m[j..j + k] == g[j..j + k]
  {
    BitsOfSlice(m, j, j + k);
    BitsOfSlice(g, j, j + k);
    assert BitsOf(m)[8 * j..8 * (j + k)] == BitsOf(g)[8 * j..8 * (j + k)];
    BitsOfInjective(m[j..j + k], g[j..j + k]);
  }

  /** A byte window of both buffers after h bytes, as bytes: the message
      bytes of the window, and the generator h - a bytes into it. */
  lemma CutBytes(data: seq<Byte>, p: BitParam, h: nat, a: nat, m: nat, k: nat, l: nat)
    requires h <= |data| && k == h - a && l == a + m - h - |p.coeff|
    requires a + m <= |data| + ChecksumSize(p.degree) + 1
    ensures Cut(State(data, p, h), 8 * a, 8 * m).file == BitsOf(Message(data, p, h)[a..a + m])
    ensures Cut(State(data, p, h), 8 * a, 8 * m).poly == BitsOf(Zeros(k) + p.coeff + Zeros(l))
  {
    var v, e := State(data, p, h), 8 * (a + m);
    assert 8 * a + 8 * m == e;
    assert Cut(v, 8 * a, 8 * m) == Work(v.file[8 * a..e], v.poly[8 * a..e]);
    FileWindow(data, p, h, a, m);
    PolyWindow(data, p, h, a, m, k, l);
  }

  /** `crunch` over k bytes of a window that starts at byte a does to the
      window what the steps over message bytes a..a+k-1 do to the whole
      buffers. */
  lemma WindowCrunch(data: seq<Byte>, p: BitParam, a: nat, k: nat, b: nat, m: nat)
    requires b == a + k && b <= |data| && k + |p.coeff| <= m
    requires a + m <= |data| + ChecksumSize(p.degree) + 1
    ensures Room(Cut(State(data, p, a), 8 * a, 8 * m), |p.coeff|, 0, 8 * k)
    ensures Crunched(Cut(State(data, p, a), 8 * a, 8 * m), |p.coeff|, 0, 8 * k)
         == Cut(State(data, p, b), 8 * a, 8 * m)
  {
    var pb, w := |p.coeff|, Whole(data, p);
    var v := State(data, p, a);
    if k > 0 {
      ByteStartLast(k);
    }
    WindowSteps(v, pb, 8 * a, 8 * b, 8 * a, 8 * m, 8 * k);
    StateCrunched(data, p, a);
    StateCrunched(data, p, b);
    CrunchedCompose(w, pb, 0, 8 * a, 8 * b);
  }

  /** `CrunchedWindow` with the window-relative bounds as parameters. */
  lemma WindowSteps(w: Work, pb: nat, lo: nat, hi: nat, a: nat, m: nat, len: nat)
    requires a % 8 == 0 && a == lo <= hi && len == hi - a && a + m <= |w.file| && a + m <= |w.poly|
    requires Room(Cut(w, a, m), pb, 0, len)
    ensures Room(w, pb, lo, hi)
    ensures Crunched(Cut(w, a, m), pb, 0, len) == Cut(Crunched(w, pb, lo, hi), a, m)
  {
    CrunchedWindow(w, pb, lo, hi, a, m);
  }

  /** The bits of k zero bytes followed by anything are clear below bit 8k. */
  lemma ZerosFirst(k: nat, t: seq<Byte>)
    ensures ClearBelow(BitsOf(Zeros(k) + t), 8 * k)
  {
    BitsOfAppend(Zeros(k), t);
    BitsOfZeros(k);
  }

  /** One call of `crunch` on a chunk: a window of m message bytes from
      byte a, in the state after the first a bytes, with the generator at
      its front and `t` XORed into the bytes from k on; `crunch` over k
      bytes leaves the same window of the state after a + k bytes, with
      `t` still XORed in and the generator k bytes further on. */
  lemma ChunkCrunch(data: seq<Byte>, p: BitParam, a: nat, k: nat, b: nat, m: nat, t: seq<Byte>,
                    f0: seq<Byte>, q0: seq<Byte>, f1: seq<Byte>, q1: seq<Byte>)
    requires b == a + k && b <= |data| && k + |p.coeff| <= m
    requires a + m <= |data| + ChecksumSize(p.degree) + 1 && |t| == m - k
    requires f0 == XorBytes(Message(data, p, a)[a..a + m], Zeros(k) + t) && q0 == p.coeff + Zeros(m - |p.coeff|)
    ensures Room(Work(BitsOf(f0), BitsOf(q0)), |p.coeff|, 0, 8 * k)
    ensures Work(BitsOf(f1), BitsOf(q1)) == Crunched(Work(BitsOf(f0), BitsOf(q0)), |p.coeff|, 0, 8 * k)
        ==> f1 == XorBytes(Message(data, p, b)[a..a + m], Zeros(k) + t)
            && q1 == Zeros(k) + p.coeff + Zeros(m - |p.coeff| - k)
  {
    var x, y := Message(data, p, a)[a..a + m], Message(data, p, b)[a..a + m];
    var c := Cut(State(data, p, a), 8 * a, 8 * m);
    var q' := Zeros(k) + p.coeff + Zeros(m - |p.coeff| - k);
    CutCrunch(data, p, a, k, b, m);
    TailCrunch(c, |p.coeff|, k, x, y, t, BitsOf(q0), BitsOf(q'), f0, f1, BitsOf(q1));
    if Work(BitsOf(f1), BitsOf(q1)) == Crunched(Work(BitsOf(f0), BitsOf(q0)), |p.coeff|, 0, 8 * k) {
      BitsOfInjective(q1, q');
    }
  }

  /** The window of m message bytes from byte a, before and after
      `crunch` over k bytes, as byte strings. */
  lemma CutCrunch(data: seq<Byte>, p: BitParam, a: nat, k: nat, b: nat, m: nat)
    requires b == a + k && b <= |data| && k + |p.coeff| <= m
    requires a + m <= |data| + ChecksumSize(p.degree) + 1
    ensures Room(Cut(State(data, p, a), 8 * a, 8 * m), |p.coeff|, 0, 8 * k)
    ensures Cut(State(data, p, a), 8 * a, 8 * m).file == BitsOf(Message(data, p, a)[a..a + m])
    ensures Cut(State(data, p, a), 8 * a, 8 * m).poly == BitsOf(p.coeff + Zeros(m - |p.coeff|))
    ensures Crunched(Cut(State(data, p, a), 8 * a, 8 * m), |p.coeff|, 0, 8 * k)
         == Work(BitsOf(Message(data, p, b)[a..a + m]), BitsOf(Zeros(k) + p.coeff + Zeros(m - |p.coeff| - k)))
  {
    CutBytes(data, p, a, a, m, 0, m - |p.coeff|);
    NoZerosFirst(p.coeff, m - |p.coeff|);
    WindowCrunch(data, p, a, k, b, m);
    CutBytes(data, p, b, a, m, k, m - |p.coeff| - k);
  }

  lemma NoZerosFirst(c: seq<Byte>, l: nat)
    ensures Zeros(0) + c + Zeros(l) == c + Zeros(l)
  {
  }

  /** Bytes `t` XORed into a chunk from byte k on pass through `crunch`
      over k bytes unchanged. */
  lemma TailCrunch(c: Work, pb: nat, k: nat, x: seq<Byte>, y: seq<Byte>, t: seq<Byte>, q: seq<bool>, q': seq<bool>,
                   f0: seq<Byte>, f1: seq<Byte>, q1: seq<bool>)
    requires Room(c, pb, 0, 8 * k)
    requires |x| == |y| == k + |t|
    requires c.file == BitsOf(x) && c.poly == q
    requires Crunched(c, pb, 0, 8 * k) == Work(BitsOf(y), q')
    requires f0 == XorBytes(x, Zeros(k) + t)
    ensures Room(Work(BitsOf(f0), q), pb, 0, 8 * k)
    ensures Work(BitsOf(f1), q1) == Crunched(Work(BitsOf(f0), q), pb, 0, 8 * k)
        ==> f1 == XorBytes(y, Zeros(k) + t) && q1 == q'
  {
    var e := BitsOf(Zeros(k) + t);
    ZerosFirst(k, t);
    CrunchedXorTail(c, e, pb, 0, 8 * k);
    BitsOfXor(x, Zeros(k) + t);
    BitsOfXor(y, Zeros(k) + t);
    if Work(BitsOf(f1), q1) == Crunched(Work(BitsOf(f0), q), pb, 0, 8 * k) {
      BitsOfInjective(f1, XorBytes(y, Zeros(k) + t));
    }
  }

  // ---------------------------------------------------------------------
  // Filling the buffers
  // ---------------------------------------------------------------------

  /** `s` written over `a` from offset `off` on. */
  function Splice(a: seq<Byte>, off: nat, s: seq<Byte>): (r: seq<Byte>)
    requires off + |s| <= |a|
    ensures |r| == |a|
  {
    a[..off] + s + a[off + |s|..]
  }

  /** Reflecting a slice is slicing the reflection. */
  lemma CheckReflectSlice(s: seq<Byte>, a: nat, b: nat, reflect: bool)
    requires a <= b <= |s|
    ensures CheckReflect(s[a..b], reflect) == CheckReflect(s, reflect)[a..b]
  {
  }

  /** The first L bytes of an XOR over the first n bytes. */
  lemma XorPrefixPrefix(a: seq<Byte>, x: seq<Byte>, n: nat, len: nat)
    requires n <= len <= |a| && n <= |x|
    ensures XorPrefix(a, x, n)[..len] == XorPrefix(a[..len], x, n)
  {
  }

  /** Resizing commutes with an XOR over the first n bytes. */
  lemma ResizedXorPrefix(a: seq<Byte>, x: seq<Byte>, n: nat, size: nat)
    requires n <= size && n <= |a| && n <= |x|
    ensures Resized(XorPrefix(a, x, n), size) == XorPrefix(Resized(a, size), x, n)
  {
    if size <= |a| {
      XorPrefixPrefix(a, x, n, size);
    } else {
      var r, t := Resized(XorPrefix(a, x, n), size), XorPrefix(Resized(a, size), x, n);
      forall i | 0 <= i < size ensures r[i] == t[i] {
        if i < |a| {
          assert r[i] == XorPrefix(a, x, n)[i];
        }
      }
    }
  }

  /** Resizing a string that ends in zeros to fewer or more zeros. */
  lemma ResizedZeros(a: seq<Byte>, z: nat, y: nat)
    ensures Resized(a + Zeros(z), |a| + y) == a + Zeros(y)
  {
  }

  /** Resizing past a kept prefix resizes the rest. */
  lemma ResizedAppend(a: seq<Byte>, w: seq<Byte>, size: nat)
    requires |a| <= size
    ensures Resized(a + w, size) == a + Resized(w, size - |a|)
  {
  }

  /** XORing a tail onto zero bytes puts the tail there. */
  lemma XorOntoZeros(a: seq<Byte>, e: seq<Byte>)
    ensures XorBytes(a + Zeros(|e|), Zeros(|a|) + e) == a + e
  {
    var r := XorBytes(a + Zeros(|e|), Zeros(|a|) + e);
    forall i | 0 <= i < |a| + |e| ensures r[i] == (a + e)[i] {
      if i < |a| {
        assert r[i] == a[i] ^ 0;
      } else {
        assert r[i] == 0 ^ e[i - |a|];
      }
    }
  }

  /** Zero bytes XORed onto a string in two parts change nothing. */
  lemma XorTwoZeros(x: seq<Byte>, k: nat, l: nat)
    requires |x| == k + l
    ensures XorBytes(x, Zeros(k) + Zeros(l)) == x
  {
    assert Zeros(k) + Zeros(l) == Zeros(|x|);
    XorZeros(x);
  }

  /** The file bytes of the augmented message from checksum_size on: the
      (reflected) file, then zeros. */
  lemma AugmentedBody(data: seq<Byte>, p: BitParam, a: nat, b: nat)
    requires ChecksumSize(p.degree) <= a <= b <= |data|
    ensures Augmented(data, p)[a..b] == CheckReflect(data, p.reflectInput)[a..b]
  {
  }

  lemma AugmentedTail(data: seq<Byte>, p: BitParam, t: nat)
    requires ChecksumSize(p.degree) <= |data| && t == ChecksumSize(p.degree) + 1
    ensures Augmented(data, p)[|data|..|data| + t] == Zeros(t)
  {
  }

  /** The first read when the file is longer than the buffer: the buffer is
      the first bufSize bytes of the augmented message. */
  lemma FirstChunk(data: seq<Byte>, p: BitParam, bufSize: nat, pos: nat, r: nat)
    requires |p.coeff| < bufSize < |data| && pos == 0 && r == bufSize
    ensures XorPrefix(Splice(Zeros(bufSize), 0, CheckReflect(data[pos..pos + r], p.reflectInput)), p.initialXor, ChecksumSize(p.degree))
         == Message(data, p, 0)[0..bufSize]
  {
    MessageStart(data, p);
    CheckReflectSlice(data, pos, pos + r, p.reflectInput);
    FirstFull(CheckReflect(data, p.reflectInput), bufSize, p.initialXor, ChecksumSize(p.degree), pos, r);
  }

  /** The first read of a chunk in plain bytes. */
  lemma FirstFull(rd: seq<Byte>, bufSize: nat, x: seq<Byte>, cs: nat, pos: nat, r: nat)
    requires pos == 0 && r == bufSize && cs <= bufSize <= |rd| && cs <= |x|
    ensures XorPrefix(Splice(Zeros(bufSize), 0, rd[pos..pos + r]), x, cs) == XorPrefix(rd + Zeros(cs + 1), x, cs)[0..bufSize]
  {
    SpliceFront(Zeros(bufSize), rd[pos..pos + r]);
    assert Splice(Zeros(bufSize), 0, rd[pos..pos + r]) == (rd + Zeros(cs + 1))[..bufSize];
    XorPrefixPrefix(rd + Zeros(cs + 1), x, cs, bufSize);
  }

  /** The first read when the file fits the buffer, resized to the file
      and checksum_size + 1 bytes: the whole augmented message. */
  lemma FirstIsFinal(data: seq<Byte>, p: BitParam, bufSize: nat, pos: nat, r: nat, size: nat, f: seq<Byte>)
    requires |p.coeff| < bufSize && 0 < |data| <= bufSize && pos == 0 && r == |data|
    requires size == r + ChecksumSize(p.degree) + 1
    requires f == XorPrefix(Splice(Zeros(bufSize), 0, CheckReflect(data[pos..pos + r], p.reflectInput)), p.initialXor, ChecksumSize(p.degree))
    ensures Resized(f, size) == XorBytes(Message(data, p, 0)[0..size], Zeros(r) + StaleTail(data, p, bufSize))
  {
    var cs := ChecksumSize(p.degree);
    MessageStart(data, p);
    assert data[pos..pos + r] == data;
    FirstFill(CheckReflect(data, p.reflectInput), bufSize, p.initialXor, cs, size);
    assert Message(data, p, 0)[0..size] == Augmented(data, p);
    assert Zeros(r) + StaleTail(data, p, bufSize) == Zeros(size);
    XorZeros(Augmented(data, p));
  }

  lemma FirstFill(rd: seq<Byte>, bufSize: nat, x: seq<Byte>, cs: nat, size: nat)
    requires |rd| <= bufSize && cs <= bufSize && cs <= |x| && size == |rd| + cs + 1
    ensures Resized(XorPrefix(Splice(Zeros(bufSize), 0, rd), x, cs), size) == XorPrefix(rd + Zeros(cs + 1), x, cs)
  {
    assert Splice(Zeros(bufSize), 0, rd) == rd + Zeros(bufSize - |rd|);
    ResizedXorPrefix(rd + Zeros(bufSize - |rd|), x, cs, size);
    ResizedZeros(rd, bufSize - |rd|, cs + 1);
  }

  /** A slice of a slice. */
  lemma SliceOfSlice(m: seq<Byte>, a: nat, b: nat, i: nat, j: nat, lo: nat, hi: nat)
    requires a <= b <= |m| && i <= j <= b - a && lo == a + i && hi == a + j
    ensures m[a..b][i..j] == m[lo..hi]
  {
    var s := m[a..b][i..j];
    forall t | 0 <= t < j - i ensures s[t] == m[lo + t] {
      assert s[t] == m[a..b][i + t];
    }
  }

  /** Writing a string at the front. */
  lemma SpliceFront(a: seq<Byte>, s: seq<Byte>)
    requires |s| <= |a|
    ensures Splice(a, 0, s) == s + a[|s|..]
  {
  }

  /** Writing a string right after a kept prefix. */
  lemma SpliceAfter(s: seq<Byte>, t: seq<Byte>, v: seq<Byte>)
    requires |v| <= |t|
    ensures Splice(s + t, |s|, v) == s + v + t[|v|..]
  {
    assert (s + t)[..|s|] == s;
    assert (s + t)[|s| + |v|..] == t[|v|..];
  }

  /** Two adjacent slices make one. */
  lemma SliceJoin(m: seq<Byte>, a: nat, b: nat, c: nat)
    requires a <= b <= c <= |m|
    ensures m[a..b] + m[b..c] == m[a..c]
  {
  }

  /** Dropping twice. */
  lemma DropDrop(s: seq<Byte>, a: nat, b: nat, lo: nat)
    requires a + b <= |s| && lo == a + b
    ensures s[a..][b..] == s[lo..]
  {
  }

  /** The carry and the read in plain bytes: the last polyBytes bytes of
      the previous window move to the front, and the r bytes read at `pos`
      follow. */
  lemma CarryFill(m: seq<Byte>, prev: seq<Byte>, c: nat, g: nat, bufSize: nat, pb: nat, pos: nat, r: nat, v: seq<Byte>)
    requires pb < bufSize && g == c + (bufSize - pb) && pos == g + pb && pos + r <= |m| && r <= bufSize - pb
    requires prev == m[c..c + bufSize] && |v| == r && v == m[pos..pos + r]
    ensures Splice(Splice(prev, 0, prev[bufSize - pb..bufSize]), pb, v) == m[g..pos + r] + prev[pb + r..]
  {
    var w, t := prev[bufSize - pb..bufSize], prev[pb..];
    var s1 := Splice(prev, 0, w);
    SpliceFront(prev, w);
    assert s1 == w + t;
    SpliceAfter(w, t, v);
    assert Splice(s1, pb, v) == w + v + t[r..];
    SliceOfSlice(m, c, c + bufSize, bufSize - pb, bufSize, g, pos);
    assert w == m[g..pos];
    SliceJoin(m, g, pos, pos + r);
    assert w + v == m[g..pos + r];
    DropDrop(prev, pb, r, pb + r);
  }

  /** A full read after the carry: the next window of the message. */
  lemma CarryFull(m: seq<Byte>, prev: seq<Byte>, c: nat, g: nat, bufSize: nat, pb: nat, pos: nat, r: nat, v: seq<Byte>)
    requires pb < bufSize && g == c + (bufSize - pb) && pos == g + pb && r == bufSize - pb && pos + r <= |m|
    requires prev == m[c..c + bufSize] && |v| == r && v == m[pos..pos + r]
    ensures Splice(Splice(prev, 0, prev[bufSize - pb..bufSize]), pb, v) == m[g..g + bufSize]
  {
    CarryFill(m, prev, c, g, bufSize, pb, pos, r, v);
    assert prev[pb + r..] == [];
  }

  /** The bytes the loop reads from position `pos` on, reflected, are the
      message bytes there in any state that has not reached them. */
  lemma ReadIsMessage(data: seq<Byte>, p: BitParam, g: nat, pos: nat, r: nat)
    requires 0 < g <= |data| && pos == g + |p.coeff| && pos + r <= |data|
    ensures CheckReflect(data[pos..pos + r], p.reflectInput) == Message(data, p, g)[pos..pos + r]
  {
    ReadIsAugmented(data, p, pos, r);
    MessageFrame(data, p, g, pos, r);
  }

  lemma ReadIsAugmented(data: seq<Byte>, p: BitParam, pos: nat, r: nat)
    requires ChecksumSize(p.degree) <= pos && pos + r <= |data|
    ensures CheckReflect(data[pos..pos + r], p.reflectInput) == Augmented(data, p)[pos..pos + r]
  {
    CheckReflectSlice(data, pos, pos + r, p.reflectInput);
    AugmentedBody(data, p, pos, pos + r);
  }

  /** The buffer after the carry and the read of a chunk that is not the
      last: the window of bufSize message bytes from byte g on. */
  lemma NextChunk(data: seq<Byte>, p: BitParam, bufSize: nat, c: nat, g: nat, prev: seq<Byte>, pos: nat, r: nat, cur: seq<Byte>)
    requires |p.coeff| < bufSize && g == c + (bufSize - |p.coeff|) && 0 < g
    requires pos == g + |p.coeff| && r == bufSize - |p.coeff| && pos + r < |data|
    requires prev == Message(data, p, g)[c..c + bufSize]
    requires cur == Splice(Splice(prev, 0, prev[bufSize - |p.coeff|..bufSize - |p.coeff| + |p.coeff|]), |p.coeff|,
                           CheckReflect(data[pos..pos + r], p.reflectInput))
    ensures cur == Message(data, p, g)[g..g + bufSize]
  {
    assert bufSize - |p.coeff| + |p.coeff| == bufSize;
    ReadIsMessage(data, p, g, pos, r);
    CarryFull(Message(data, p, g), prev, c, g, bufSize, |p.coeff|, pos, r, CheckReflect(data[pos..pos + r], p.reflectInput));
  }

  /** The buffer after the carry and the read of the last chunk of a file
      longer than the buffer, resized by `realloc`: the message bytes from
      g to the end of the file, then the stale tail. */
  lemma LastChunk(data: seq<Byte>, p: BitParam, bufSize: nat, c: nat, g: nat, prev: seq<Byte>,
                  pos: nat, r: nat, k: nat, size: nat, cur: seq<Byte>)
    requires |p.coeff| < bufSize < |data| && g == c + (bufSize - |p.coeff|) && 0 < g
    requires FinalStart(|data|, bufSize, |p.coeff|) == g
    requires pos == g + |p.coeff| && r == |data| - pos && k == |p.coeff| + r && size == k + ChecksumSize(p.degree) + 1
    requires prev == Message(data, p, g)[c..c + bufSize]
    requires cur == Splice(Splice(prev, 0, prev[bufSize - |p.coeff|..bufSize - |p.coeff| + |p.coeff|]), |p.coeff|,
                           CheckReflect(data[pos..pos + r], p.reflectInput))
    ensures Resized(cur, size) == XorBytes(Message(data, p, g)[g..g + size], Zeros(k) + StaleTail(data, p, bufSize))
  {
    assert bufSize - |p.coeff| + |p.coeff| == bufSize;
    LastRead(data, p, bufSize, c, g, prev, pos, r);
    StaleTailAt(data, p, bufSize, g);
    MessageEnd(data, p, g, ChecksumSize(p.degree) + 1);
    LastTail(Message(data, p, g), prev, Splice(Splice(prev, 0, prev[bufSize - |p.coeff|..bufSize]), |p.coeff|, CheckReflect(data[pos..pos + r], p.reflectInput)),
             bufSize, |p.coeff|, c, g, pos, r, k, |data|, size, StaleTail(data, p, bufSize), ChecksumSize(p.degree) + 1);
  }

  /** The carry and the read of the last chunk, before `realloc`. */
  lemma LastRead(data: seq<Byte>, p: BitParam, bufSize: nat, c: nat, g: nat, prev: seq<Byte>, pos: nat, r: nat)
    requires |p.coeff| < bufSize && g == c + (bufSize - |p.coeff|) && 0 < g
    requires pos == g + |p.coeff| && pos + r <= |data| && r <= bufSize - |p.coeff|
    requires prev == Message(data, p, g)[c..c + bufSize]
    ensures Splice(Splice(prev, 0, prev[bufSize - |p.coeff|..bufSize]), |p.coeff|, CheckReflect(data[pos..pos + r], p.reflectInput))
         == Message(data, p, g)[g..pos + r] + prev[|p.coeff| + r..]
  {
    ReadIsMessage(data, p, g, pos, r);
    CarryFill(Message(data, p, g), prev, c, g, bufSize, |p.coeff|, pos, r, CheckReflect(data[pos..pos + r], p.reflectInput));
  }

  /** The checksum_size + 1 bytes after the file are still zero in any
      state before the end. */
  lemma MessageEnd(data: seq<Byte>, p: BitParam, g: nat, t: nat)
    requires 0 < g && g + |p.coeff| <= |data| && t == ChecksumSize(p.degree) + 1
    ensures Message(data, p, g)[|data|..|data| + t] == Zeros(t)
  {
    MessageFrame(data, p, g, |data|, t);
    AugmentedTail(data, p, t);
  }

  /** On a file longer than the buffer, the stale tail is the one left by
      the chunk before the last. */
  lemma StaleTailAt(data: seq<Byte>, p: BitParam, bufSize: nat, g: nat)
    requires |p.coeff| < bufSize < |data| && FinalStart(|data|, bufSize, |p.coeff|) == g
    ensures bufSize - |p.coeff| <= g && |data| <= g + bufSize && g + |p.coeff| < |data|
    ensures StaleTail(data, p, bufSize) == Stale(Message(data, p, g), |data|, bufSize, |p.coeff|, g, ChecksumSize(p.degree) + 1)
  {
  }

  /** The last buffer in plain bytes: the read ends the file at byte n of
      the message, the old buffer `prev` supplies the bytes after it, and
      `realloc` keeps `size` bytes. */
  lemma LastTail(m: seq<Byte>, prev: seq<Byte>, x: seq<Byte>, bufSize: nat, pb: nat, c: nat, g: nat,
                 pos: nat, r: nat, k: nat, n: nat, size: nat, e: seq<Byte>, len: nat)
    requires pb < bufSize && g == c + (bufSize - pb) && n <= g + bufSize && g + pb <= pos && pos + r == n == g + k
    requires size == k + len && n + len <= |m| && c + bufSize <= |m|
    requires prev == m[c..c + bufSize] && x == m[g..pos + r] + prev[k..]
    requires e == Stale(m, n, bufSize, pb, g, len) && m[n..n + len] == Zeros(len)
    ensures Resized(x, size) == XorBytes(m[g..g + size], Zeros(k) + e)
  {
    DropOfSlice(m, c, c + bufSize, k, n - (bufSize - pb), g + pb);
    LastFill(m, prev, g, pos, r, k, n, size, e, x);
  }

  /** The last fill in plain bytes. */
  lemma LastFill(m: seq<Byte>, prev: seq<Byte>, g: nat, pos: nat, r: nat, k: nat, n: nat, size: nat, e: seq<Byte>, x: seq<Byte>)
    requires pos + r == n == g + k && k <= |prev| && g <= pos && size == k + |e| && n + |e| <= |m|
    requires x == m[g..pos + r] + prev[k..]
    requires Resized(prev[k..], |e|) == e
    requires m[n..n + |e|] == Zeros(|e|)
    ensures Resized(x, size) == XorBytes(m[g..g + size], Zeros(k) + e)
  {
    var a := m[g..n];
    assert x == a + prev[k..];
    ResizedAppend(a, prev[k..], size);
    assert Resized(x, size) == a + e;
    SliceJoin(m, g, n, n + |e|);
    assert m[g..g + size] == a + Zeros(|e|);
    XorOntoZeros(a, e);
  }

  /** Dropping from a slice. */
  lemma DropOfSlice(m: seq<Byte>, a: nat, b: nat, i: nat, lo: nat, hi: nat)
    requires a <= b <= |m| && i <= b - a && lo == a + i && hi == b
    ensures m[a..b][i..] == m[lo..hi]
  {
  }

  /** After the last chunk, the checksum_size bytes at `bytes_to_process`
      are the remainder disturbed by the leftover bytes. */
  lemma FinalRemainder(data: seq<Byte>, p: BitParam, bufSize: nat, g: nat, k: nat, size: nat, f: seq<Byte>)
    requires |p.coeff| < bufSize && g + k == |data| && size == k + ChecksumSize(p.degree) + 1
    requires f == XorBytes(Message(data, p, |data|)[g..g + size], Zeros(k) + StaleTail(data, p, bufSize))
    ensures f[k..k + ChecksumSize(p.degree)] == XorBytes(Remainder(data, p), Leftover(data, p, bufSize))
  {
    XorWindowAt(Message(data, p, |data|), g, k, |data|, size, ChecksumSize(p.degree), StaleTail(data, p, bufSize), f);
  }

  /** A window of an XOR with a zero-padded tail, in plain bytes. */
  lemma XorWindowAt(m: seq<Byte>, g: nat, k: nat, n: nat, size: nat, cs: nat, e: seq<Byte>, f: seq<Byte>)
    requires g + k == n && size == k + |e| && cs <= |e| && g + size <= |m|
    requires f == XorBytes(m[g..g + size], Zeros(k) + e)
    ensures f[k..k + cs] == XorBytes(m[n..n + cs], e[..cs])
  {
    var r := f[k..k + cs];
    forall i | 0 <= i < cs ensures r[i] == m[n + i] ^ e[i] {
      assert r[i] == f[k + i];
    }
  }
}
