/**
 * `calculate_crc_from_file_bitwise` (src/crcbit.c): the file is read in
 * chunks of `file_buf_size` bytes into a file buffer, a generator buffer
 * of the same size holds the coefficients under the window `crunch`
 * works on, and between chunks the last poly_bytes bytes of both buffers
 * are carried to the front.  On the last chunk both buffers are resized
 * to hold the checksum bytes after the file, `crunch` runs once more, and
 * the final XOR, the reflection and the printing follow.
 *
 * The file is a byte string and the file position an index into it;
 * `read` copies the next bytes.  The buffer size is a parameter (the
 * program uses FileBufSize).
 */
module CrcBitDriver {
  import opened Bits
  import opened CrcTypes
  import opened CrcBit
  import opened CrunchTheory
  import opened CrcBitFile
  import opened Chunks
  import opened Rounds

  // ---------------------------------------------------------------------
  // Memory and file routines on arrays
  // ---------------------------------------------------------------------

  /** A buffer equal, byte by byte, to `a` with `s` written at `off`. */
  lemma SpliceEq(a: seq<Byte>, off: nat, s: seq<Byte>, r: seq<Byte>)
    requires off + |s| <= |a| && |r| == |a|
    requires forall j :: 0 <= j < |r| ==> r[j] == if off <= j < off + |s| then s[j - off] else a[j]
    ensures r == Splice(a, off, s)
  {
    var t := Splice(a, off, s);
    assert t == a[..off] + s + a[off + |s|..];
    forall j | 0 <= j < |r| ensures r[j] == t[j] {
      if j < off {
        assert t[j] == a[j];
      } else if j < off + |s| {
        assert t[j] == s[j - off];
      } else {
        assert t[j] == a[off + |s|..][j - off - |s|];
      }
    }
  }

  /** `read(fd, buf + off, count)` at file position `pos`: the next
      min(count, bytes left) bytes of the file. */
  method Read(data: seq<Byte>, pos: nat, buf: array<Byte>, off: nat, count: nat) returns (n: nat)
    requires pos <= |data| && off + count <= buf.Length
    modifies buf
    ensures n == Min(count, |data| - pos)
    ensures buf[..] == Splice(old(buf[..]), off, data[pos..pos + n])
  {
    n := Min(count, |data| - pos);
    ghost var a := buf[..];
    var i := 0;
    while i < n
      invariant 0 <= i <= n
      invariant forall j :: 0 <= j < buf.Length ==> buf[j] == if off <= j < off + i then data[pos + (j - off)] else a[j]
    {
      buf[off + i] := data[pos + i];
      i := i + 1;
    }
    SpliceEq(a, off, data[pos..pos + n], buf[..]);
  }

  /** `check_reflect(buf + off, n, reflect)`: the n bytes at `off`
      reflected one by one when the flag is set. */
  method CheckReflectInPlace(buf: array<Byte>, off: nat, n: nat, reflect: bool)
    requires off + n <= buf.Length
    modifies buf
    ensures buf[..] == Splice(old(buf[..]), off, CheckReflect(old(buf[..])[off..off + n], reflect))
  {
    ghost var a := buf[..];
    if reflect {
      var i := 0;
      while i < n
        invariant 0 <= i <= n
        invariant forall j :: 0 <= j < buf.Length ==> buf[j] == if off <= j < off + i then Reflect8(a[j]) else a[j]
      {
        buf[off + i] := Reflect8(buf[off + i]);
        i := i + 1;
      }
    }
    SpliceEq(a, off, CheckReflect(a[off..off + n], reflect), buf[..]);
  }

  /** A read followed by `check_reflect` over the bytes read, as the loop
      does in both branches. */
  method ReadChunk(data: seq<Byte>, pos: nat, buf: array<Byte>, off: nat, count: nat, reflect: bool) returns (n: nat)
    requires pos <= |data| && off + count <= buf.Length
    modifies buf
    ensures n == Min(count, |data| - pos)
    ensures buf[..] == Splice(old(buf[..]), off, CheckReflect(data[pos..pos + n], reflect))
  {
    ghost var a := buf[..];
    n := Read(data, pos, buf, off, count);
    ghost var b := buf[..];
    CheckReflectInPlace(buf, off, n, reflect);
    SpliceTwice(a, off, data[pos..pos + n], b, CheckReflect(data[pos..pos + n], reflect));
  }

  /** Writing twice at the same place keeps the second write. */
  lemma SpliceTwice(a: seq<Byte>, off: nat, s: seq<Byte>, b: seq<Byte>, e: seq<Byte>)
    requires off + |s| <= |a| && |e| == |s| && b == Splice(a, off, s)
    ensures b[off..off + |s|] == s
    ensures Splice(b, off, e) == Splice(a, off, e)
  {
    assert b == a[..off] + s + a[off + |s|..];
    assert b[..off] == a[..off];
    assert b[off + |s|..] == a[off + |s|..];
  }

  /** `memmove(buf, buf + from, n)` with the source after the target: a
      forward copy, correct when the two ranges overlap. */
  method MemMove(buf: array<Byte>, from: nat, n: nat)
    requires from + n <= buf.Length
    modifies buf
    ensures buf[..] == Splice(old(buf[..]), 0, old(buf[..])[from..from + n])
  {
    ghost var a := buf[..];
    var i := 0;
    while i < n
      invariant 0 <= i <= n
      invariant forall j :: 0 <= j < i ==> buf[j] == a[from + j]
      invariant forall j :: i <= j < buf.Length ==> buf[j] == a[j]
    {
      buf[i] := buf[from + i];
      i := i + 1;
    }
    SpliceEq(a, 0, a[from..from + n], buf[..]);
  }

  /** `memset(buf + off, 0, n)`. */
  method MemSet(buf: array<Byte>, off: nat, n: nat)
    requires off + n <= buf.Length
    modifies buf
    ensures buf[..] == Splice(old(buf[..]), off, Zeros(n))
  {
    ghost var a := buf[..];
    var i := 0;
    while i < n
      invariant 0 <= i <= n
      invariant forall j :: 0 <= j < buf.Length ==> buf[j] == if off <= j < off + i then 0 else a[j]
    {
      buf[off + i] := 0;
      i := i + 1;
    }
    SpliceEq(a, off, Zeros(n), buf[..]);
  }

  /** `memcpy(buf, src, |src|)`. */
  method MemCpy(buf: array<Byte>, src: seq<Byte>)
    requires |src| <= buf.Length
    modifies buf
    ensures buf[..] == Splice(old(buf[..]), 0, src)
  {
    ghost var a := buf[..];
    var i := 0;
    while i < |src|
      invariant 0 <= i <= |src|
      invariant forall j :: 0 <= j < buf.Length ==> buf[j] == if j < i then src[j] else a[j]
    {
      buf[i] := src[i];
      i := i + 1;
    }
    SpliceEq(a, 0, src, buf[..]);
  }

  /** `realloc(buf, size)`: a new buffer with the old contents, cut or
      grown; the grown bytes are taken to be zero. */
  method Realloc(buf: array<Byte>, size: nat) returns (nb: array<Byte>)
    ensures fresh(nb)
    ensures nb[..] == Resized(old(buf[..]), size)
  {
    nb := new Byte[size](_ => 0);
    var i := 0;
    while i < size && i < buf.Length
      invariant 0 <= i <= size && i <= buf.Length
      invariant forall j :: 0 <= j < size ==> nb[j] == if j < i then buf[j] else 0
    {
      nb[i] := buf[i];
      i := i + 1;
    }
    ghost var r := Resized(buf[..], size);
    forall j | 0 <= j < size ensures nb[j] == r[j] {
      if j < buf.Length {
        assert r[j] == buf[..][j];
      } else {
        assert r[j] == Zeros(size - buf.Length)[j - buf.Length];
      }
    }
    assert nb[..] == r;
  }

  /** `print_crc_checksum`: the remainder bytes in printing order, last
      byte first when the remainder is reflected. */
  method PrintCrcChecksum(buf: array<Byte>, off: nat, checksumBytes: nat, reflectRemainder: bool) returns (digits: seq<Byte>)
    requires off + checksumBytes <= buf.Length
    ensures digits == Emitted(buf[off..off + checksumBytes], reflectRemainder)
  {
    digits := [];
    if reflectRemainder {
      var i := checksumBytes;
      while i > 0
        invariant 0 <= i <= checksumBytes && |digits| == checksumBytes - i
        invariant forall k :: 0 <= k < |digits| ==> digits[k] == buf[off + checksumBytes - 1 - k]
      {
        i := i - 1;
        digits := digits + [buf[off + i]];
      }
    } else {
      var i := 0;
      while i < checksumBytes
        invariant 0 <= i <= checksumBytes && digits == buf[off..off + i]
      {
        digits := digits + [buf[off + i]];
        i := i + 1;
      }
    }
  }

  // ---------------------------------------------------------------------
  // The loop
  // ---------------------------------------------------------------------

  /** The generator copied to the front of the zeroed generator buffer. */
  lemma PolyFront(coeff: seq<Byte>, bufSize: nat)
    requires |coeff| <= bufSize
    ensures Splice(Zeros(bufSize), 0, coeff) == coeff + Zeros(bufSize - |coeff|)
  {
    assert Zeros(bufSize)[|coeff|..] == Zeros(bufSize - |coeff|);
  }

  /** Both buffers resized by `realloc` to `size` bytes. */
  method Reallocate(fileBuf: array<Byte>, polyBuf: array<Byte>, size: nat) returns (fb: array<Byte>, qb: array<Byte>)
    ensures fresh(fb) && fresh(qb) && fb != qb
    ensures fb[..] == Resized(old(fileBuf[..]), size) && qb[..] == Resized(old(polyBuf[..]), size)
  {
    fb := Realloc(fileBuf, size);
    qb := Realloc(polyBuf, size);
  }

  /** The last chunk: `crunch` over k bytes leaves the remainder after
      them. */
  method CrunchLast(data: seq<Byte>, p: BitParam, bufSize: nat, clear: bool, ghost a: nat, k: nat,
                    fileBuf: array<Byte>, polyBuf: array<Byte>) returns (remainder: nat)
    requires fileBuf != polyBuf
    requires ReadyLast(data, p, bufSize, clear, a, k, fileBuf[..], polyBuf[..]) == true
    modifies fileBuf, polyBuf
    ensures remainder + ChecksumSize(p.degree) <= fileBuf.Length
    ensures fileBuf[remainder..remainder + ChecksumSize(p.degree)] == Expected(data, p, bufSize, clear)
  {
    ghost var f0, q0 := fileBuf[..], polyBuf[..];
    remainder := Crunch(fileBuf, polyBuf, k, |p.coeff|);
    AfterLast(data, p, bufSize, clear, a, k, f0, q0, fileBuf[..], polyBuf[..]);
  }

  /** A chunk that is not the last: `crunch` over k bytes leaves the top of
      the next round. */
  method CrunchNext(data: seq<Byte>, p: BitParam, bufSize: nat, ghost a: nat, k: nat, ghost e: nat, ghost pos: nat,
                    fileBuf: array<Byte>, polyBuf: array<Byte>)
    requires fileBuf != polyBuf && e == a + k
    requires ReadyNext(data, p, bufSize, a, k, pos, fileBuf[..], polyBuf[..]) == true
    modifies fileBuf, polyBuf
    ensures Carried(data, p, bufSize, a, e, pos, fileBuf[..], polyBuf[..]) == true
  {
    ghost var f0, q0 := fileBuf[..], polyBuf[..];
    var remainder := Crunch(fileBuf, polyBuf, k, |p.coeff|);
    AfterNext(data, p, bufSize, a, k, pos, f0, q0, fileBuf[..], polyBuf[..]);
  }

  /** The carry between two rounds: the last polyBytes bytes of both
      buffers moved to the front, the rest of the generator buffer zeroed. */
  method Carry(fileBuf: array<Byte>, polyBuf: array<Byte>, bufSize: nat, polyBytes: nat)
    requires fileBuf != polyBuf && polyBytes < bufSize && fileBuf.Length == bufSize && polyBuf.Length == bufSize
    modifies fileBuf, polyBuf
    ensures fileBuf[..] == Splice(old(fileBuf[..]), 0, old(fileBuf[..])[bufSize - polyBytes..bufSize - polyBytes + polyBytes])
    ensures polyBuf[..] == Splice(Splice(old(polyBuf[..]), 0, old(polyBuf[..])[bufSize - polyBytes..bufSize - polyBytes + polyBytes]),
                                  polyBytes, Zeros(bufSize - polyBytes))
  {
    MemMove(fileBuf, bufSize - polyBytes, polyBytes);
    MemMove(polyBuf, bufSize - polyBytes, polyBytes);
    MemSet(polyBuf, polyBytes, bufSize - polyBytes);
  }

  /** The first round: read a whole buffer, reflect it, XOR the initial
      value in; then either the file ends, which is the case `first_last`,
      or the loop goes on. */
  method FirstPass(data: seq<Byte>, p: BitParam, bufSize: nat, clear: bool,
                   fileBuf: array<Byte>, polyBuf: array<Byte>)
    returns (fb: array<Byte>, qb: array<Byte>, pos: nat, walking: bool, remainder: nat)
    requires |p.coeff| < bufSize && 0 < |data|
    requires fileBuf != polyBuf
    requires fileBuf[..] == Zeros(bufSize) && polyBuf[..] == p.coeff + Zeros(bufSize - |p.coeff|)
    modifies fileBuf, polyBuf
    ensures fb != qb && (fb == fileBuf || fresh(fb)) && (qb == polyBuf || fresh(qb))
    ensures 0 < pos <= |data|
    ensures walking ==> Carried(data, p, bufSize, 0, bufSize - |p.coeff|, pos, fb[..], qb[..]) == true
    ensures !walking ==> (remainder + ChecksumSize(p.degree) <= fb.Length
                          && fb[remainder..remainder + ChecksumSize(p.degree)] == Expected(data, p, bufSize, clear))
  {
    ghost var q := polyBuf[..];
    var bytesRead := ReadChunk(data, 0, fileBuf, 0, bufSize, p.reflectInput);
    ghost var rd := fileBuf[..];
    XorBitsBytewise(fileBuf, 0, p.initialXor, ChecksumSize(p.degree));
    pos := bytesRead;
    if pos == |data| {
      fb, qb, remainder := OnlyPass(data, p, bufSize, clear, bytesRead, rd, q, fileBuf, polyBuf);
      walking := false;
    } else {
      FirstMid(data, p, bufSize, bytesRead, rd, q, fileBuf, polyBuf);
      fb, qb, remainder, walking := fileBuf, polyBuf, 0, true;
    }
  }

  /** The end of the first round of a file longer than the buffer: the
      whole buffer crunched. */
  method FirstMid(data: seq<Byte>, p: BitParam, bufSize: nat, bytesRead: nat, ghost rd: seq<Byte>, ghost q: seq<Byte>,
                  fileBuf: array<Byte>, polyBuf: array<Byte>)
    requires fileBuf != polyBuf
    requires |p.coeff| < bufSize < |data| && bytesRead == Min(bufSize, |data|)
    requires rd == Splice(Zeros(bufSize), 0, CheckReflect(data[0..0 + bytesRead], p.reflectInput))
    requires fileBuf[..] == rd[..0] + XorPrefix(rd[0..], p.initialXor, ChecksumSize(p.degree))
    requires q == p.coeff + Zeros(bufSize - |p.coeff|) && polyBuf[..] == q
    modifies fileBuf, polyBuf
    ensures Carried(data, p, bufSize, 0, bufSize - |p.coeff|, bytesRead, fileBuf[..], polyBuf[..]) == true
  {
    FirstRound(data, p, bufSize, bytesRead, rd, fileBuf[..], q);
    CrunchNext(data, p, bufSize, 0, bufSize - |p.coeff|, bufSize - |p.coeff|, bytesRead, fileBuf, polyBuf);
  }

  /** The end of the first round of a file that fits the buffer: both
      buffers resized to the bytes read and checksum_size + 1 more, and
      the whole message crunched. */
  method OnlyPass(data: seq<Byte>, p: BitParam, bufSize: nat, clear: bool, bytesRead: nat, ghost rd: seq<Byte>,
                  ghost q: seq<Byte>, fileBuf: array<Byte>, polyBuf: array<Byte>)
    returns (fb: array<Byte>, qb: array<Byte>, remainder: nat)
    requires |p.coeff| < bufSize && 0 < |data| <= bufSize && bytesRead == Min(bufSize, |data|)
    requires rd == Splice(Zeros(bufSize), 0, CheckReflect(data[0..0 + bytesRead], p.reflectInput))
    requires fileBuf[..] == rd[..0] + XorPrefix(rd[0..], p.initialXor, ChecksumSize(p.degree))
    requires q == p.coeff + Zeros(bufSize - |p.coeff|) && polyBuf[..] == q
    ensures fresh(fb) && fresh(qb) && fb != qb
    ensures remainder + ChecksumSize(p.degree) <= fb.Length
    ensures fb[remainder..remainder + ChecksumSize(p.degree)] == Expected(data, p, bufSize, clear)
  {
    var size := bytesRead + ChecksumSize(p.degree) + 1;
    ghost var f := fileBuf[..];
    fb, qb := Reallocate(fileBuf, polyBuf, size);
    OnlyRound(data, p, bufSize, clear, bytesRead, size, rd, f, q, fb[..], qb[..]);
    remainder := CrunchLast(data, p, bufSize, clear, 0, bytesRead, fb, qb);
  }

  /** A later round: carry the last polyBytes bytes of both buffers to the
      front, zero the rest of the generator buffer, read behind the carried
      bytes; then either the file ends (`first_last` is false here) or the
      loop goes on. */
  method NextPass(data: seq<Byte>, p: BitParam, bufSize: nat, clear: bool, ghost c: nat, ghost g: nat, ghost e: nat,
                  pos0: nat, fileBuf: array<Byte>, polyBuf: array<Byte>)
    returns (fb: array<Byte>, qb: array<Byte>, pos: nat, walking: bool, remainder: nat)
    requires fileBuf != polyBuf && e == g + (bufSize - |p.coeff|)
    requires Carried(data, p, bufSize, c, g, pos0, fileBuf[..], polyBuf[..]) == true
    modifies fileBuf, polyBuf
    ensures fb != qb && (fb == fileBuf || fresh(fb)) && (qb == polyBuf || fresh(qb))
    ensures pos0 < pos <= |data|
    ensures walking ==> Carried(data, p, bufSize, g, e, pos, fb[..], qb[..]) == true
    ensures !walking ==> (remainder + ChecksumSize(p.degree) <= fb.Length
                          && fb[remainder..remainder + ChecksumSize(p.degree)] == Expected(data, p, bufSize, clear))
  {
    ghost var f, q := fileBuf[..], polyBuf[..];
    Carry(fileBuf, polyBuf, bufSize, |p.coeff|);
    var bytesRead := ReadChunk(data, pos0, fileBuf, |p.coeff|, bufSize - |p.coeff|, p.reflectInput);
    pos := pos0 + bytesRead;
    if pos == |data| {
      fb, qb, remainder := LastPass(data, p, bufSize, clear, c, g, pos0, bytesRead, f, q, fileBuf, polyBuf);
      walking := false;
    } else {
      MidPass(data, p, bufSize, c, g, e, pos0, bytesRead, f, q, fileBuf, polyBuf);
      fb, qb, remainder, walking := fileBuf, polyBuf, 0, true;
    }
  }

  /** The end of a later round that does not reach the end of the file:
      the chunk is crunched. */
  method MidPass(data: seq<Byte>, p: BitParam, bufSize: nat, ghost c: nat, ghost g: nat, ghost e: nat, ghost pos0: nat,
                 bytesRead: nat, ghost f: seq<Byte>, ghost q: seq<Byte>, fileBuf: array<Byte>, polyBuf: array<Byte>)
    requires fileBuf != polyBuf && e == g + (bufSize - |p.coeff|)
    requires Carried(data, p, bufSize, c, g, pos0, f, q) == true
    requires bytesRead == Min(bufSize - |p.coeff|, |data| - pos0) && pos0 + bytesRead < |data|
    requires fileBuf[..] == Splice(Splice(f, 0, f[bufSize - |p.coeff|..bufSize - |p.coeff| + |p.coeff|]), |p.coeff|,
                                   CheckReflect(data[pos0..pos0 + bytesRead], p.reflectInput))
    requires polyBuf[..] == Splice(Splice(q, 0, q[bufSize - |p.coeff|..bufSize - |p.coeff| + |p.coeff|]), |p.coeff|,
                                   Zeros(bufSize - |p.coeff|))
    modifies fileBuf, polyBuf
    ensures Carried(data, p, bufSize, g, e, pos0 + bytesRead, fileBuf[..], polyBuf[..]) == true
  {
    NextRound(data, p, bufSize, c, g, pos0, f, q, bytesRead, fileBuf[..], polyBuf[..]);
    CrunchNext(data, p, bufSize, g, bufSize - |p.coeff|, e, pos0 + bytesRead, fileBuf, polyBuf);
  }

  /** The end of the last round of a file longer than the buffer: both
      buffers resized to the carried bytes, the bytes read and
      checksum_size + 1 more, the bytes after the file cleared when
      `clear` is set, and the chunk crunched. */
  method LastPass(data: seq<Byte>, p: BitParam, bufSize: nat, clear: bool, ghost c: nat, ghost g: nat, ghost pos0: nat,
                  bytesRead: nat, ghost f: seq<Byte>, ghost q: seq<Byte>, fileBuf: array<Byte>, polyBuf: array<Byte>)
    returns (fb: array<Byte>, qb: array<Byte>, remainder: nat)
    requires Carried(data, p, bufSize, c, g, pos0, f, q) == true
    requires bytesRead == Min(bufSize - |p.coeff|, |data| - pos0) && pos0 + bytesRead == |data|
    requires fileBuf[..] == Splice(Splice(f, 0, f[bufSize - |p.coeff|..bufSize - |p.coeff| + |p.coeff|]), |p.coeff|,
                                   CheckReflect(data[pos0..pos0 + bytesRead], p.reflectInput))
    requires polyBuf[..] == Splice(Splice(q, 0, q[bufSize - |p.coeff|..bufSize - |p.coeff| + |p.coeff|]), |p.coeff|,
                                   Zeros(bufSize - |p.coeff|))
    ensures fresh(fb) && fresh(qb) && fb != qb
    ensures remainder + ChecksumSize(p.degree) <= fb.Length
    ensures fb[remainder..remainder + ChecksumSize(p.degree)] == Expected(data, p, bufSize, clear)
  {
    var size, bytesToProcess := |p.coeff| + bytesRead + ChecksumSize(p.degree) + 1, |p.coeff| + bytesRead;
    ghost var f1, q1 := fileBuf[..], polyBuf[..];
    fb, qb := Reallocate(fileBuf, polyBuf, size);
    LastRound(data, p, bufSize, clear, c, g, pos0, f, q, bytesRead, size, f1, q1, fb[..], qb[..]);
    assert 0 < g && g + bytesToProcess == |data|;
    remainder := CrunchFinal(data, p, bufSize, clear, g, bytesToProcess, size, fb, qb);
  }

  /** The last chunk of a file longer than the buffer, once loaded: the
      bytes after the file cleared when `clear` is set, then the chunk
      crunched. */
  method CrunchFinal(data: seq<Byte>, p: BitParam, bufSize: nat, clear: bool, ghost g: nat, bytesToProcess: nat,
                     ghost size: nat, fileBuf: array<Byte>, polyBuf: array<Byte>) returns (remainder: nat)
    requires fileBuf != polyBuf
    requires |p.coeff| < bufSize && 0 < g && g + bytesToProcess == |data| && |p.coeff| <= bytesToProcess
    requires size == bytesToProcess + ChecksumSize(p.degree) + 1
    requires Loaded(data, p, g, bytesToProcess, size, StaleTail(data, p, bufSize), fileBuf[..], polyBuf[..]) == true
    modifies fileBuf, polyBuf
    ensures remainder + ChecksumSize(p.degree) <= fileBuf.Length
    ensures fileBuf[remainder..remainder + ChecksumSize(p.degree)] == Expected(data, p, bufSize, clear)
  {
    ghost var f := fileBuf[..];
    if clear {
      MemSet(fileBuf, bytesToProcess, ChecksumSize(p.degree) + 1);
    }
    LastReady(data, p, bufSize, clear, g, bytesToProcess, size, f, polyBuf[..], fileBuf[..]);
    remainder := CrunchLast(data, p, bufSize, clear, g, bytesToProcess, fileBuf, polyBuf);
  }

  /** The do-while loop over the chunks: rounds until the file is read,
      leaving the remainder of the last chunk in the returned buffer. */
  method Walk(data: seq<Byte>, p: BitParam, bufSize: nat, clear: bool, fileBuf0: array<Byte>, polyBuf0: array<Byte>)
    returns (fileBuf: array<Byte>, remainder: nat)
    requires |p.coeff| < bufSize && 0 < |data|
    requires fileBuf0 != polyBuf0
    requires fileBuf0[..] == Zeros(bufSize) && polyBuf0[..] == p.coeff + Zeros(bufSize - |p.coeff|)
    modifies fileBuf0, polyBuf0
    ensures fileBuf == fileBuf0 || fresh(fileBuf)
    ensures remainder + ChecksumSize(p.degree) <= fileBuf.Length
    ensures fileBuf[remainder..remainder + ChecksumSize(p.degree)] == Expected(data, p, bufSize, clear)
  {
    var polyBuf, pos: nat, walking;
    fileBuf, polyBuf, pos, walking, remainder := FirstPass(data, p, bufSize, clear, fileBuf0, polyBuf0);
    ghost var c: nat, g: nat := 0, bufSize - |p.coeff|;
    while walking
      invariant fileBuf != polyBuf
      invariant fileBuf == fileBuf0 || fresh(fileBuf)
      invariant polyBuf == polyBuf0 || fresh(polyBuf)
      invariant pos <= |data|
      invariant walking ==> Carried(data, p, bufSize, c, g, pos, fileBuf[..], polyBuf[..]) == true
      invariant !walking ==> (remainder + ChecksumSize(p.degree) <= fileBuf.Length
                              && fileBuf[remainder..remainder + ChecksumSize(p.degree)] == Expected(data, p, bufSize, clear))
      decreases |data| - pos + (if walking then 1 else 0)
    {
      ghost var e := g + (bufSize - |p.coeff|);
      fileBuf, polyBuf, pos, walking, remainder := NextPass(data, p, bufSize, clear, c, g, e, pos, fileBuf, polyBuf);
      c, g := g, e;
    }
  }

  /** The steps after the loop: the final XOR and the reflection of the
      remainder in place, then its printing. */
  method Conclude(fileBuf: array<Byte>, remainder: nat, p: BitParam, ghost e: seq<Byte>) returns (digits: seq<Byte>)
    requires remainder + ChecksumSize(p.degree) <= fileBuf.Length
    requires fileBuf[remainder..remainder + ChecksumSize(p.degree)] == e
    modifies fileBuf
    ensures digits == Finish(e, p)
  {
    var checksumSize := ChecksumSize(p.degree);
    ghost var f := fileBuf[..];
    XorBitsBytewise(fileBuf, remainder, p.finalXor, checksumSize);
    ghost var f1 := fileBuf[..];
    CheckReflectInPlace(fileBuf, remainder, checksumSize, p.reflectRemainder);
    FinishSteps(f, remainder, p, e, f1, fileBuf[..]);
    digits := PrintCrcChecksum(fileBuf, remainder, checksumSize, p.reflectRemainder);
  }

  /** The body of `calculate_crc_from_file_bitwise` for the parameter
      record p: the empty-file and buffer-size checks, the do-while loop
      over the chunks, and the final XOR, reflection and printing of the
      remainder.  With `clear` set, the bytes after the file are zeroed on
      the last chunk of a file longer than the buffer. */
  method CrcLoop(data: seq<Byte>, p: BitParam, bufSize: nat, clear: bool) returns (r: Outcome)
    requires |p.coeff| == PolyBytes(p.degree)
    ensures !clear ==> r == AsWrittenCrc(data, p, bufSize)
    ensures clear ==> r == CrcOfFile(data, p, bufSize)
  {
    var checksumSize := if p.degree / 8 == 0 then 1 else p.degree / 8;
    var polyBytes := if p.degree / 8 == 0 then 1 else checksumSize + 1;
    assert checksumSize == ChecksumSize(p.degree) && polyBytes == |p.coeff|;
    var fileBuf := new Byte[bufSize](_ => 0);
    var polyBuf := new Byte[bufSize](_ => 0);
    if |data| == 0 {
      return EmptyFile;
    }
    if bufSize <= polyBytes {
      return BufferTooSmall;
    }
    MemCpy(polyBuf, p.coeff);
    PolyFront(p.coeff, bufSize);
    var remainder;
    fileBuf, remainder := Walk(data, p, bufSize, clear, fileBuf, polyBuf);
    var digits := Conclude(fileBuf, remainder, p, Expected(data, p, bufSize, clear));
    r := Checksum(digits);
  }

  /** `calculate_crc_from_file_bitwise(file, polynomial_degree)` as
      written, with the parameters of `init_polynomial_odd`. */
  method CalculateCrcFromFileBitwise(data: seq<Byte>, degree: nat, bufSize: nat) returns (r: Outcome)
    requires Supported(degree)
    ensures r == AsWrittenCrc(data, InitPolynomialOdd(degree).value, bufSize)
  {
    var p: BitParam := InitPolynomialOdd(degree).value;
    r := CrcLoop(data, p, bufSize, false);
  }

  /** The same with the bytes after the file cleared on the last chunk:
      the checksum of the whole file. */
  method CalculateCrcFromFileBitwiseCleared(data: seq<Byte>, degree: nat, bufSize: nat) returns (r: Outcome)
    requires Supported(degree)
    ensures r == CrcOfFile(data, InitPolynomialOdd(degree).value, bufSize)
  {
    var p: BitParam := InitPolynomialOdd(degree).value;
    r := CrcLoop(data, p, bufSize, true);
  }
}
