/**
 * Polynomial long division over GF(2), on bit strings.
 *
 * A bit string `f` stands for a polynomial whose highest power comes first.
 * Dividing by a generator `g` (its leading coefficient `g[0]` set) walks the
 * positions `lo..hi-1` of `f` in order and, wherever the current bit is
 * set, adds (XORs) `g` aligned at that bit.  This is the reference the
 * byte-level engine of src/crcbit.c is proved against.
 */
module Division {

  /** Pointwise exclusive or: the sum of two polynomials over GF(2). */
  function XorBits(a: seq<bool>, b: seq<bool>): (r: seq<bool>)
    requires |a| == |b|
    ensures |r| == |a|
    ensures forall i {:trigger r[i]} :: 0 <= i < |a| ==> r[i] == (a[i] != b[i])
  {
    seq(|a|, i requires 0 <= i < |a| => a[i] != b[i])
  }

  /** The zero polynomial as a string of `n` bits. */
  function NoBits(n: nat): (r: seq<bool>)
    ensures |r| == n
    ensures forall i :: 0 <= i < n ==> !r[i]
  {
    seq(n, _ => false)
  }

  /** `g` aligned so that its leading coefficient sits at bit `t` of an
      `n`-bit string: the product of `g` and a power of x. */
  function Place(g: seq<bool>, t: nat, n: nat): (r: seq<bool>)
    ensures |r| == n
  {
    seq(n, i requires 0 <= i < n => t <= i < t + |g| && g[i - t])
  }

  /** One step of the division at bit `t`. */
  function DivStep(f: seq<bool>, g: seq<bool>, t: nat): (r: seq<bool>)
    requires t < |f| && t + |g| <= |f|
    ensures |r| == |f|
  {
    if f[t] then XorBits(f, Place(g, t, |f|)) else f
  }

  /** The steps at bits lo..hi-1 fit inside `f`. */
  predicate Fits(f: seq<bool>, g: seq<bool>, lo: nat, hi: nat)
  {
    lo <= hi <= |f| && (lo == hi || hi - 1 + |g| <= |f|)
  }

  /** The division steps at bits lo..hi-1, in order. */
  function LongDivision(f: seq<bool>, g: seq<bool>, lo: nat, hi: nat): (r: seq<bool>)
    requires Fits(f, g, lo, hi)
    ensures |r| == |f|
    decreases hi - lo
  {
    if hi == lo then f else DivStep(LongDivision(f, g, lo, hi - 1), g, hi - 1)
  }

  /** The quotient bits: whether a step subtracted the generator. */
  function Quotient(f: seq<bool>, g: seq<bool>, lo: nat, hi: nat): (q: seq<bool>)
    requires Fits(f, g, lo, hi)
    ensures |q| == hi - lo
    decreases hi - lo
  {
    if hi == lo then [] else Quotient(f, g, lo, hi - 1) + [LongDivision(f, g, lo, hi - 1)[hi - 1]]
  }

  /** The product of the quotient polynomial `q` (whose first bit stands at
      position `lo`) and `g`, as an `n`-bit string. */
  function Multiple(q: seq<bool>, g: seq<bool>, lo: nat, n: nat): (r: seq<bool>)
    ensures |r| == n
  {
    if |q| == 0 then NoBits(n)
    else XorBits(Multiple(q[..|q| - 1], g, lo, n), Term(q[|q| - 1], g, lo + |q| - 1, n))
  }

  /** The generator at bit `t` when `b` is set, nothing otherwise. */
  function Term(b: bool, g: seq<bool>, t: nat, n: nat): (r: seq<bool>)
    ensures |r| == n
    ensures forall i {:trigger r[i]} :: 0 <= i < n ==> r[i] == (b && Place(g, t, n)[i])
  {
    if b then Place(g, t, n) else NoBits(n)
  }

  // ---------------------------------------------------------------------
  // The division leaves zeros behind it
  // ---------------------------------------------------------------------

  /** Division keeps the bits before `lo` and clears bits lo..hi-1. */
  lemma {:induction false} LongDivisionClears(f: seq<bool>, g: seq<bool>, lo: nat, hi: nat)
    requires Fits(f, g, lo, hi) && 0 < |g| && g[0]
    ensures LongDivision(f, g, lo, hi)[..lo] == f[..lo]
    ensures forall i :: lo <= i < hi ==> !LongDivision(f, g, lo, hi)[i]
  {
    if hi > lo {
      LongDivisionClears(f, g, lo, hi - 1);
      var r := LongDivision(f, g, lo, hi - 1);
      var t := hi - 1;
      var p := Place(g, t, |f|);
      assert forall i :: 0 <= i < t ==> !p[i];
      assert p[t];
      assert LongDivision(f, g, lo, hi)[..lo] == r[..lo];
    }
  }

  // ---------------------------------------------------------------------
  // The division subtracts a multiple of the generator
  // ---------------------------------------------------------------------

  /** What the division removed from `f` is the quotient times `g`. */
  lemma {:induction false} DivisionIdentity(f: seq<bool>, g: seq<bool>, lo: nat, hi: nat)
    requires Fits(f, g, lo, hi)
    ensures XorBits(f, LongDivision(f, g, lo, hi)) == Multiple(Quotient(f, g, lo, hi), g, lo, |f|)
  {
    if hi == lo {
      assert XorBits(f, f) == NoBits(|f|);
      assert Quotient(f, g, lo, hi) == [];
    } else {
      var t := hi - 1;
      DivisionIdentity(f, g, lo, t);
      var r := LongDivision(f, g, lo, t);
      DivisionStepUnfold(f, g, lo, hi);
      IdentityStep(f, r, Quotient(f, g, lo, t), g, lo, t);
    }
  }

  /** A step keeps the identity: if `f` and `r` differ by q times g, then
      `f` and the next `r` differ by the next quotient times g. */
  lemma IdentityStep(f: seq<bool>, r: seq<bool>, q: seq<bool>, g: seq<bool>, lo: nat, t: nat)
    requires |r| == |f| && t < |f| && t + |g| <= |f| && lo + |q| == t
    requires XorBits(f, r) == Multiple(q, g, lo, |f|)
    ensures XorBits(f, DivStep(r, g, t)) == Multiple(q + [r[t]], g, lo, |f|)
  {
    StepIdentity(f, r, g, t);
    MultipleSnoc(q, r[t], g, lo, t, |f|);
  }

  /** The last step of a division and the quotient bit it produces. */
  lemma DivisionStepUnfold(f: seq<bool>, g: seq<bool>, lo: nat, hi: nat)
    requires Fits(f, g, lo, hi) && lo < hi
    ensures LongDivision(f, g, lo, hi) == DivStep(LongDivision(f, g, lo, hi - 1), g, hi - 1)
    ensures Quotient(f, g, lo, hi) == Quotient(f, g, lo, hi - 1) + [LongDivision(f, g, lo, hi - 1)[hi - 1]]
  {
  }

  /** Appending a quotient bit adds the generator at that bit, or nothing. */
  lemma MultipleSnoc(q: seq<bool>, b: bool, g: seq<bool>, lo: nat, t: nat, n: nat)
    requires t == lo + |q|
    ensures Multiple(q + [b], g, lo, n) == XorBits(Multiple(q, g, lo, n), Term(b, g, t, n))
  {
    assert (q + [b])[..|q|] == q;
  }

  /** One division step adds the generator to what was removed so far
      exactly when the current bit is set. */
  lemma StepIdentity(f: seq<bool>, r: seq<bool>, g: seq<bool>, t: nat)
    requires |r| == |f| && t < |f| && t + |g| <= |f|
    ensures XorBits(f, DivStep(r, g, t)) == XorBits(XorBits(f, r), Term(r[t], g, t, |f|))
  {
  }

  /** The product with the zero quotient is zero. */
  lemma {:induction false} MultipleOfNothing(q: seq<bool>, g: seq<bool>, lo: nat, n: nat)
    requires forall i :: 0 <= i < |q| ==> !q[i]
    ensures Multiple(q, g, lo, n) == NoBits(n)
  {
    if |q| > 0 {
      MultipleOfNothing(q[..|q| - 1], g, lo, n);
    }
  }

  /** The product is linear in the quotient. */
  lemma {:induction false} MultipleLinear(q1: seq<bool>, q2: seq<bool>, g: seq<bool>, lo: nat, n: nat)
    requires |q1| == |q2|
    ensures Multiple(XorBits(q1, q2), g, lo, n) == XorBits(Multiple(q1, g, lo, n), Multiple(q2, g, lo, n))
  {
    if |q1| > 0 {
      var k := |q1| - 1;
      var x := XorBits(q1, q2);
      assert x[..k] == XorBits(q1[..k], q2[..k]);
      MultipleLinear(q1[..k], q2[..k], g, lo, n);
      var m1, m2, m := Multiple(q1[..k], g, lo, n), Multiple(q2[..k], g, lo, n), Multiple(x[..k], g, lo, n);
      MultipleLast(x, k, g, lo, lo + k, q1[k] != q2[k], n);
      MultipleLast(q1, k, g, lo, lo + k, q1[k], n);
      MultipleLast(q2, k, g, lo, lo + k, q2[k], n);
      LinearStep(m1, m2, m, q1[k], q2[k], g, lo + k, n);
    }
  }

  /** A non-empty quotient: the product of all but its last bit, plus the
      term of that bit. */
  lemma MultipleLast(q: seq<bool>, k: nat, g: seq<bool>, lo: nat, t: nat, b: bool, n: nat)
    requires k + 1 == |q| && t == lo + k && b == q[k]
    ensures Multiple(q, g, lo, n) == XorBits(Multiple(q[..k], g, lo, n), Term(b, g, t, n))
  {
  }

  /** The last step of MultipleLinear, on the products themselves. */
  lemma LinearStep(m1: seq<bool>, m2: seq<bool>, m: seq<bool>, b1: bool, b2: bool, g: seq<bool>, t: nat, n: nat)
    requires |m1| == |m2| == n && m == XorBits(m1, m2)
    ensures XorBits(m, Term(b1 != b2, g, t, n)) == XorBits(XorBits(m1, Term(b1, g, t, n)), XorBits(m2, Term(b2, g, t, n)))
  {
  }

  /** A product whose bits lo..lo+|q|-1 are all zero comes from the zero
      quotient, because the leading coefficient of `g` is set. */
  lemma {:induction false} MultipleVanishes(q: seq<bool>, g: seq<bool>, lo: nat, n: nat)
    requires 0 < |g| && g[0] && lo + |q| <= n
    requires forall i :: lo <= i < lo + |q| ==> !Multiple(q, g, lo, n)[i]
    ensures forall i :: 0 <= i < |q| ==> !q[i]
  {
    if |q| > 0 {
      var k := |q| - 1;
      var last := Term(q[k], g, lo + k, n);
      assert forall i :: 0 <= i < lo + k ==> !last[i];
      assert forall i :: lo <= i < lo + k ==> !Multiple(q[..k], g, lo, n)[i] by {
        forall i | lo <= i < lo + k ensures !Multiple(q[..k], g, lo, n)[i] {
          assert !Multiple(q, g, lo, n)[i];
        }
      }
      MultipleVanishes(q[..k], g, lo, n);
      MultipleOfNothing(q[..k], g, lo, n);
      assert Multiple(q, g, lo, n)[lo + k] == last[lo + k];
      forall i | 0 <= i < |q| ensures !q[i] {
        if i < k {
          assert q[i] == q[..k][i];
        }
      }
    }
  }

  /** A remainder of `f` on the positions lo..hi-1: it differs from `f` by
      a multiple of `g` and has no bit set at those positions. */
  predicate IsRemainder(f: seq<bool>, g: seq<bool>, lo: nat, hi: nat, r: seq<bool>, q: seq<bool>)
  {
    |r| == |f| && |q| == hi - lo && hi <= |f|
    && XorBits(f, r) == Multiple(q, g, lo, |f|)
    && forall i :: lo <= i < hi ==> !r[i]
  }

  /** Long division computes a remainder. */
  lemma LongDivisionIsRemainder(f: seq<bool>, g: seq<bool>, lo: nat, hi: nat)
    requires Fits(f, g, lo, hi) && 0 < |g| && g[0]
    ensures IsRemainder(f, g, lo, hi, LongDivision(f, g, lo, hi), Quotient(f, g, lo, hi))
  {
    LongDivisionClears(f, g, lo, hi);
    DivisionIdentity(f, g, lo, hi);
  }

  /** The remainder is unique: any remainder of `f` on lo..hi-1 is the one
      long division computes. */
  lemma RemainderUnique(f: seq<bool>, g: seq<bool>, lo: nat, hi: nat,
                        r1: seq<bool>, q1: seq<bool>, r2: seq<bool>, q2: seq<bool>)
    requires 0 < |g| && g[0]
    requires IsRemainder(f, g, lo, hi, r1, q1) && IsRemainder(f, g, lo, hi, r2, q2)
    ensures r1 == r2 && q1 == q2
  {
    var n := |f|;
    MultipleLinear(q1, q2, g, lo, n);
    var d := XorBits(q1, q2);
    assert Multiple(d, g, lo, n) == XorBits(r1, r2) by {
      var m1 := Multiple(q1, g, lo, n);
      var m2 := Multiple(q2, g, lo, n);
      forall i | 0 <= i < n ensures XorBits(m1, m2)[i] == XorBits(r1, r2)[i] {
        assert m1[i] == (f[i] != r1[i]);
        assert m2[i] == (f[i] != r2[i]);
      }
    }
    MultipleVanishes(d, g, lo, n);
    MultipleOfNothing(d, g, lo, n);
    forall i | 0 <= i < n ensures r1[i] == r2[i] {
      assert !XorBits(r1, r2)[i];
    }
    forall i | 0 <= i < |q1| ensures q1[i] == q2[i] {
      assert !d[i];
    }
  }

  /** The remainder of any `f` is the remainder of long division. */
  lemma LongDivisionUnique(f: seq<bool>, g: seq<bool>, lo: nat, hi: nat, r: seq<bool>, q: seq<bool>)
    requires Fits(f, g, lo, hi) && 0 < |g| && g[0]
    requires IsRemainder(f, g, lo, hi, r, q)
    ensures r == LongDivision(f, g, lo, hi)
  {
    LongDivisionIsRemainder(f, g, lo, hi);
    RemainderUnique(f, g, lo, hi, r, q, LongDivision(f, g, lo, hi), Quotient(f, g, lo, hi));
  }
}
