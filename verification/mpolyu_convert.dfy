/** Conversion between a dense univariate polynomial (fq_nmod_poly) and an
    mpolyu whose coefficients are constants: fq_nmod_mpolyu_cvtfrom_poly and
    fq_nmod_mpolyu_cvtto_poly. */
module MPolyUConvert {
  import opened Words
  import opened MPolyU

  /** Dense coefficients, entry i for X^i; normalised when the last entry is
      nonzero. */
  type Dense = seq<Coeff>

  predicate Normalised(a: Dense)
  {
    |a| == 0 || a[|a| - 1] != 0
  }

  /** The coefficient of X^x, zero outside the stored range. */
  function DenseAt(a: Dense, x: int): Coeff
  {
    if 0 <= x < |a| then a[x] else 0
  }

  /** Strips trailing zero coefficients. */
  function Normalise(a: Dense): (r: Dense)
    ensures Normalised(r)
    ensures forall x :: DenseAt(r, x) == DenseAt(a, x)
  {
    if |a| == 0 || a[|a| - 1] != 0 then a else Normalise(a[..|a| - 1])
  }

  /** fq_nmod_poly_set_coeff: extend with zeros as needed, store, normalise. */
  function SetCoeff(a: Dense, n: nat, c: Coeff): (r: Dense)
    ensures Normalised(r)
    ensures forall x :: DenseAt(r, x) == if x == n then c else DenseAt(a, x)
  {
    var padded := if n < |a| then a else a + seq(n + 1 - |a|, _ => 0);
    Normalise(padded[n := c])
  }

  /** Normalised dense polynomials are determined by their coefficients. */
  lemma DenseExtensional(a: Dense, b: Dense)
    requires Normalised(a) && Normalised(b)
    requires forall x :: DenseAt(a, x) == DenseAt(b, x)
    ensures a == b
  {
    if |b| > 0 {
      assert DenseAt(a, |b| - 1) != 0;
    }
    if |a| > 0 {
      assert DenseAt(b, |a| - 1) != 0;
    }
    forall i | 0 <= i < |a|
      ensures a[i] == b[i]
    {
      assert DenseAt(a, i) == DenseAt(b, i);
    }
  }

  /** fq_nmod_mpolyu_cvtfrom_poly: scanning i from the top coefficient down,
      every nonzero coefficient becomes one constant term at exponent i. */
  function CvtFrom(a: Dense): (A: Poly)
    requires |a| <= TopBit
    ensures Canonical(A)
    ensures forall k :: 0 <= k < |A| ==> A[k].exp < |a| && A[k].coeff == a[A[k].exp]
  {
    if |a| == 0 then []
    else
      var i := |a| - 1;
      var tail := CvtFrom(a[..i]);
      assert forall k :: 0 <= k < |tail| ==> tail[k].exp < i && tail[k].coeff == a[tail[k].exp];
      if a[i] != 0 then [Term(i, a[i])] + tail else tail
  }

  /** Exactly the nonzero dense coefficients become terms. */
  lemma CvtFromExps(a: Dense)
    requires |a| <= TopBit
    ensures forall i :: 0 <= i < |a| ==> (HasExp(CvtFrom(a), i) <==> a[i] != 0)
  {
    var A := CvtFrom(a);
    forall i | 0 <= i < |a|
      ensures HasExp(A, i) <==> a[i] != 0
    {
      CvtFromCoeff(a, i);
      if !HasExp(A, i) {
        CoeffAtAbsent(A, i);
      }
    }
  }

  /** The conversion keeps every coefficient. */
  lemma {:induction false} CvtFromCoeff(a: Dense, x: int)
    requires |a| <= TopBit
    ensures CoeffAt(CvtFrom(a), x) == DenseAt(a, x)
  {
    if |a| > 0 {
      var i := |a| - 1;
      CvtFromCoeff(a[..i], x);
      if a[i] != 0 {
        CoeffAtCons(Term(i, a[i]), CvtFrom(a[..i]), x);
      }
    }
  }

  /** The loop of fq_nmod_mpolyu_cvtto_poly from term 0 upward. */
  function CvtToFrom(a: Dense, A: Poly): Dense
    decreases |A|
  {
    if |A| == 0 then a else CvtToFrom(SetCoeff(a, A[0].exp, A[0].coeff), A[1..])
  }

  /** fq_nmod_mpolyu_cvtto_poly: starts from the zero polynomial and sets one
      coefficient per term; the source asserts its input is canonical. The
      dense result is normalised and has the coefficients the terms denote. */
  function CvtTo(A: Poly): (a: Dense)
    requires Canonical(A)
    ensures Normalised(a)
    ensures forall x :: DenseAt(a, x) == CoeffAt(A, x)
  {
    CvtToFromEmpty(A);
    CvtToFrom([], A)
  }

  lemma {:induction false} CvtToFromNormalised(a: Dense, A: Poly)
    requires Normalised(a)
    ensures Normalised(CvtToFrom(a, A))
    decreases |A|
  {
    if |A| > 0 {
      CvtToFromNormalised(SetCoeff(a, A[0].exp, A[0].coeff), A[1..]);
    }
  }

  lemma {:induction false} CvtToFromAt(a: Dense, A: Poly, x: int)
    requires StrictlyDescending(A)
    ensures DenseAt(CvtToFrom(a, A), x) == if HasExp(A, x) then CoeffAt(A, x) else DenseAt(a, x)
    decreases |A|
  {
    if |A| > 0 {
      var a' := SetCoeff(a, A[0].exp, A[0].coeff);
      assert StrictlyDescending(A[1..]);
      CvtToFromAt(a', A[1..], x);
      if x == A[0].exp {
        HeadCoeff(A);
        assert HasExp(A, x);
        assert !HasExp(A[1..], x) by {
          forall k | 0 <= k < |A[1..]|
            ensures A[1..][k].exp != x
          {
            assert A[1..][k] == A[k + 1];
          }
        }
      } else {
        assert HasExp(A, x) <==> HasExp(A[1..], x) by {
          if HasExp(A, x) {
            var k :| 0 <= k < |A| && A[k].exp == x;
            assert A[1..][k - 1] == A[k];
          }
          if HasExp(A[1..], x) {
            var k :| 0 <= k < |A[1..]| && A[1..][k].exp == x;
            assert A[k + 1] == A[1..][k];
          }
        }
      }
    }
  }

  lemma CvtToFromEmpty(A: Poly)
    requires Canonical(A)
    ensures Normalised(CvtToFrom([], A))
    ensures forall x :: DenseAt(CvtToFrom([], A), x) == CoeffAt(A, x)
  {
    CvtToFromNormalised([], A);
    forall x
      ensures DenseAt(CvtToFrom([], A), x) == CoeffAt(A, x)
    {
      CvtToFromAt([], A, x);
      if !HasExp(A, x) {
        CoeffAtAbsent(A, x);
      }
    }
  }

  /** Round trip from the dense side: cvtto_poly(cvtfrom_poly(a)) == a. */
  lemma DenseRoundTrip(a: Dense)
    requires Normalised(a) && |a| <= TopBit
    ensures CvtTo(CvtFrom(a)) == a
  {
    var A := CvtFrom(a);
    forall x
      ensures DenseAt(CvtTo(A), x) == DenseAt(a, x)
    {
      CvtFromCoeff(a, x);
    }
    DenseExtensional(CvtTo(A), a);
  }

  /** Round trip from the sparse side: a canonical list of constant terms
      survives cvtto_poly followed by cvtfrom_poly. */
  lemma SparseRoundTrip(A: Poly)
    requires Canonical(A)
    ensures |CvtTo(A)| <= TopBit
    ensures CvtFrom(CvtTo(A)) == A
  {
    var a := CvtTo(A);
    assert DenseAt(a, |a| - 1) == CoeffAt(A, |a| - 1);
    if |a| > 0 {
      HeadCoeff(A);
      assert |a| - 1 <= A[0].exp;
    }
    forall x
      ensures CoeffAt(CvtFrom(a), x) == CoeffAt(A, x)
    {
      CvtFromCoeff(a, x);
    }
    CanonicalExtensional(CvtFrom(a), A);
  }
}
