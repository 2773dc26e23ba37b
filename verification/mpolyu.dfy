/** Polynomials in a main variable X whose coefficients are multivariate
    polynomials (fq_nmod_mpolyu): a list of (exponent, coefficient) terms,
    canonically with strictly descending exponents and no zero coefficient.

    The coefficient ring is modelled by the integers, an integral domain; the
    length-0 multivariate polynomial is 0 and the constant one is 1. */
module MPolyU {
  import opened Words

  type Coeff = int

  /** One term `coeff * X^exp`; `exp` is a `ulong`. */
  datatype Term = Term(exp: U64, coeff: Coeff)

  type Poly = seq<Term>

  /** `2^63`: exponents at or above it read as negative through `(slong)`. */
  const TopBit: int := 0x8000_0000_0000_0000

  predicate StrictlyDescending(A: Poly)
  {
    forall i, j :: 0 <= i < j < |A| ==> A[i].exp > A[j].exp
  }

  /** The declarative canonical form. */
  predicate Canonical(A: Poly)
  {
    && StrictlyDescending(A)
    && (forall i :: 0 <= i < |A| ==> A[i].exp < TopBit && A[i].coeff != 0)
  }

  /** Some term of `A` has exponent `x`. */
  predicate HasExp(A: Poly, x: int)
  {
    exists i :: 0 <= i < |A| && A[i].exp == x
  }

  /** The coefficient of `X^x` denoted by `A`: the sum of the coefficients of
      all its terms with exponent `x`. */
  function CoeffAt(A: Poly, x: int): Coeff
  {
    if |A| == 0 then 0
    else (if A[0].exp == x then A[0].coeff else 0) + CoeffAt(A[1..], x)
  }

  lemma {:induction false} CoeffAtAbsent(A: Poly, x: int)
    requires !HasExp(A, x)
    ensures CoeffAt(A, x) == 0
  {
    if |A| > 0 {
      assert !HasExp(A[1..], x) by {
        forall i | 0 <= i < |A[1..]|
          ensures A[1..][i].exp != x
        {
          assert A[1..][i] == A[i + 1];
        }
      }
      CoeffAtAbsent(A[1..], x);
    }
  }

  lemma CoeffAtCons(t: Term, A: Poly, x: int)
    ensures CoeffAt([t] + A, x) == (if t.exp == x then t.coeff else 0) + CoeffAt(A, x)
  {
    assert ([t] + A)[1..] == A;
  }

  lemma CoeffAtAppend(A: Poly, B: Poly, x: int)
    ensures CoeffAt(A + B, x) == CoeffAt(A, x) + CoeffAt(B, x)
  {
    if |A| > 0 {
      assert (A + B)[1..] == A[1..] + B;
      CoeffAtAppend(A[1..], B, x);
    } else {
      assert A + B == B;
    }
  }

  /** In a strictly descending list the head coefficient is the only
      contribution at the head exponent. */
  lemma HeadCoeff(A: Poly)
    requires |A| > 0 && StrictlyDescending(A)
    ensures CoeffAt(A, A[0].exp) == A[0].coeff
    ensures forall x :: x > A[0].exp ==> CoeffAt(A, x) == 0
  {
    forall x | x >= A[0].exp
      ensures !HasExp(A[1..], x)
    {
      forall i | 0 <= i < |A[1..]|
        ensures A[1..][i].exp != x
      {
        assert A[1..][i] == A[i + 1];
      }
    }
    CoeffAtAbsent(A[1..], A[0].exp);
    forall x | x > A[0].exp
      ensures CoeffAt(A, x) == 0
    {
      CoeffAtAbsent(A[1..], x);
    }
  }

  /** Canonical lists are determined by the coefficients they denote. */
  lemma {:induction false} CanonicalExtensional(A: Poly, B: Poly)
    requires Canonical(A) && Canonical(B)
    requires forall x :: CoeffAt(A, x) == CoeffAt(B, x)
    ensures A == B
  {
    if |A| > 0 && |B| > 0 {
      HeadCoeff(A);
      HeadCoeff(B);
      assert A[0].exp <= B[0].exp by {
        assert CoeffAt(B, A[0].exp) != 0;
      }
      assert B[0].exp <= A[0].exp by {
        assert CoeffAt(A, B[0].exp) != 0;
      }
      assert A[0] == B[0];
      forall x
        ensures CoeffAt(A[1..], x) == CoeffAt(B[1..], x)
      {
        assert CoeffAt(A, x) == CoeffAt(B, x);
      }
      CanonicalExtensional(A[1..], B[1..]);
    } else if |A| > 0 {
      HeadCoeff(A);
      assert false;
    } else if |B| > 0 {
      HeadCoeff(B);
      assert false;
    }
  }

  /** fq_nmod_mpolyu_is_canonical: one pass over the terms, checking each
      exponent's top bit, each adjacent pair's order and each coefficient. */
  method IsCanonical(A: Poly) returns (ok: bool)
    ensures ok <==> Canonical(A)
  {
    var i := 0;
    while i < |A|
      invariant 0 <= i <= |A|
      invariant Canonical(A[..i])
    {
      if A[i].exp >= TopBit {
        return false;
      }
      if i > 0 && A[i - 1].exp <= A[i].exp {
        return false;
      }
      if A[i].coeff == 0 {
        return false;
      }
      i := i + 1;
    }
    assert A[..i] == A;
    return true;
  }

  /** `A` denotes the constant polynomial 1. */
  ghost predicate DenotesOne(A: Poly)
  {
    forall x :: CoeffAt(A, x) == (if x == 0 then 1 else 0)
  }

  /** fq_nmod_mpolyu_one: the single term 1*X^0. */
  function One(): (A: Poly)
    ensures Canonical(A) && DenotesOne(A)
  {
    [Term(0, 1)]
  }

  /** fq_nmod_mpolyu_is_one: length 1, exponent 0, coefficient one; it
      accepts exactly the list `One` builds. */
  predicate IsOne(A: Poly): (b: bool)
    ensures b <==> A == One()
  {
    |A| == 1 && A[0].exp == 0 && A[0].coeff == 1
  }

  /** On canonical lists, `IsOne` is the test for denoting the constant 1. */
  lemma OneIsOne(A: Poly)
    requires Canonical(A)
    ensures IsOne(A) <==> DenotesOne(A)
  {
    var one := One();
    assert DenotesOne(one);
    if DenotesOne(A) {
      forall x
        ensures CoeffAt(A, x) == CoeffAt(one, x)
      {
      }
      CanonicalExtensional(A, one);
      assert IsOne(A);
    }
    if IsOne(A) {
      assert A == one;
    }
  }

  /** fq_nmod_mpolyu_set: copies B term by term over the destination's old
      storage `dest`, then cuts the destination to B's length. */
  method Set(dest: Poly, B: Poly) returns (A: Poly)
    ensures A == B
  {
    var buf := dest;
    if |buf| < |B| {
      buf := buf + B[|buf|..];
    }
    var i := 0;
    while i < |B|
      invariant 0 <= i <= |B| <= |buf|
      invariant buf[..i] == B[..i]
    {
      buf := buf[i := B[i]];
      i := i + 1;
    }
    A := buf[..|B|];
  }

  /** The lookup-or-insert position of `pow`: the first index whose exponent
      is below `pow`, or an index holding `pow`. */
  method GetCoeff(A: Poly, pow: U64) returns (R: Poly, idx: nat)
    ensures idx < |R| && R[idx].exp == pow
    ensures HasExp(A, pow) && StrictlyDescending(A) ==> R == A
    ensures !HasExp(A, pow) ==> |R| == |A| + 1 && idx <= |A|
    ensures !HasExp(A, pow) ==> R == A[..idx] + [Term(pow, 0)] + A[idx..]
    ensures !HasExp(A, pow) && StrictlyDescending(A) ==>
      (forall k :: 0 <= k < idx ==> A[k].exp > pow) &&
      (forall k :: idx <= k < |A| ==> A[k].exp < pow)
    ensures StrictlyDescending(A) ==> StrictlyDescending(R)
  {
    var i := 0;
    while i < |A| && A[i].exp >= pow
      invariant 0 <= i <= |A|
      invariant forall k :: 0 <= k < i ==> A[k].exp > pow
    {
      if A[i].exp == pow {
        if StrictlyDescending(A) {
          assert HasExp(A, pow);
        }
        return A, i;
      }
      i := i + 1;
    }
    assert !HasExp(A[..i], pow);
    // the spare slot made by fit_length; its contents are overwritten below
    var buf := A + [Term(pow, 0)];
    var j := |A|;
    while j > i
      invariant i <= j <= |A|
      invariant |buf| == |A| + 1
      invariant buf[..j] == A[..j]
      invariant forall k :: j < k <= |A| ==> buf[k] == A[k - 1]
    {
      buf := buf[j := buf[j - 1]];
      j := j - 1;
    }
    buf := buf[i := Term(pow, 0)];
    R, idx := buf, i;
    assert R == A[..i] + [Term(pow, 0)] + A[i..];
    if StrictlyDescending(A) && i < |A| {
      assert A[i].exp < pow;
    }
    if StrictlyDescending(A) {
      assert !HasExp(A, pow) by {
        forall k | 0 <= k < |A|
          ensures A[k].exp != pow
        {
          if k >= i && i < |A| {
            assert A[k].exp <= A[i].exp;
          }
        }
      }
    }
  }

  /** fq_nmod_mpolyu_shift_left: adds `s` to every exponent, in `ulong`
      arithmetic. */
  function ShiftLeft(A: Poly, s: U64): (R: Poly)
    ensures |R| == |A|
    ensures (forall i :: 0 <= i < |A| ==> A[i].exp + s < W64) ==>
      forall x :: CoeffAt(R, x) == CoeffAt(A, x - s)
  {
    var R := seq(|A|, i requires 0 <= i < |A| => Term(Wrap(A[i].exp + s), A[i].coeff));
    ShiftLeftCoeff(A, R, s);
    R
  }

  /** fq_nmod_mpolyu_shift_right: subtracts `s` from every exponent; the
      source asserts that no exponent is below `s`. */
  function ShiftRight(A: Poly, s: U64): (R: Poly)
    requires forall i :: 0 <= i < |A| ==> A[i].exp >= s
    ensures |R| == |A|
    ensures forall x :: CoeffAt(R, x) == CoeffAt(A, x + s)
  {
    var R := seq(|A|, i requires 0 <= i < |A| => Term(A[i].exp - s, A[i].coeff));
    CoeffMoved(A, R, -(s as int));
    R
  }

  /** Moving every exponent by `d` and keeping the coefficients multiplies
      the denoted polynomial by X^d. */
  lemma {:induction false} CoeffMoved(A: Poly, R: Poly, d: int)
    requires |R| == |A|
    requires forall i :: 0 <= i < |A| ==> R[i].coeff == A[i].coeff && R[i].exp == A[i].exp + d
    ensures forall x :: CoeffAt(R, x) == CoeffAt(A, x - d)
  {
    if |A| > 0 {
      CoeffMoved(A[1..], R[1..], d);
    }
  }

  /** The `ulong` shift is such a move when it does not wrap. */
  lemma ShiftLeftCoeff(A: Poly, R: Poly, s: U64)
    requires |R| == |A|
    requires forall i :: 0 <= i < |A| ==> R[i] == Term(Wrap(A[i].exp + s), A[i].coeff)
    ensures (forall i :: 0 <= i < |A| ==> A[i].exp + s < W64) ==>
      forall x :: CoeffAt(R, x) == CoeffAt(A, x - s)
  {
    if forall i :: 0 <= i < |A| ==> A[i].exp + s < W64 {
      forall i | 0 <= i < |A|
        ensures R[i].exp == A[i].exp + s
      {
        WrapSmall(A[i].exp + s);
      }
      CoeffMoved(A, R, s);
    }
  }

  /** Shifting right keeps the exponents strictly descending and the list
      canonical. */
  lemma ShiftRightKeepsOrder(A: Poly, s: U64)
    requires forall i :: 0 <= i < |A| ==> A[i].exp >= s
    ensures StrictlyDescending(A) ==> StrictlyDescending(ShiftRight(A, s))
    ensures Canonical(A) ==> Canonical(ShiftRight(A, s))
  {
  }

  /** Without wrap-around, shifting left keeps the order, and keeps the list
      canonical while the shifted exponents keep their top bit clear. */
  lemma ShiftLeftKeepsOrder(A: Poly, s: U64)
    requires forall i :: 0 <= i < |A| ==> A[i].exp + s < W64
    ensures StrictlyDescending(A) ==> StrictlyDescending(ShiftLeft(A, s))
    ensures Canonical(A) && (forall i :: 0 <= i < |A| ==> A[i].exp + s < TopBit) ==>
      Canonical(ShiftLeft(A, s))
  {
  }

  /** Wrap-around can break the order: the top exponent passes 2^64 - 1. */
  lemma ShiftLeftWrapBreaksOrder()
    ensures StrictlyDescending([Term(W64 - 1, 1), Term(0, 1)])
    ensures !StrictlyDescending(ShiftLeft([Term(W64 - 1, 1), Term(0, 1)], 1))
  {
    var R := ShiftLeft([Term(W64 - 1, 1), Term(0, 1)], 1);
    assert R[0].exp == 0 && R[1].exp == 1;
  }

  /** shift_right undoes shift_left when the left shift does not wrap, and
      shift_left always undoes shift_right. */
  lemma ShiftRoundTrip(A: Poly, s: U64)
    ensures (forall i :: 0 <= i < |A| ==> A[i].exp + s < W64) ==>
      (forall i :: 0 <= i < |A| ==> ShiftLeft(A, s)[i].exp >= s) &&
      ShiftRight(ShiftLeft(A, s), s) == A
    ensures (forall i :: 0 <= i < |A| ==> A[i].exp >= s) ==>
      ShiftLeft(ShiftRight(A, s), s) == A
  {
  }
}
