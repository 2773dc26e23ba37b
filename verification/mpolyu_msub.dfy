/** fq_nmod_mpolyu_msub, the sorted merge computing A - c*B*X^e, and the
    fq_nmod_mpolyu_divides loop built on it. */
module MPolyUMsub {
  import opened Words
  import opened Wrappers
  import opened MPolyU

  /** `B->exps[j] + e` with `e` an `slong` added to a `ulong`. */
  function ShiftExp(b: U64, e: I64): U64
  {
    Wrap(b + e)
  }

  /** The coefficient of `X^x` in `B*X^e`, with the shift wrapping as the
      source's `ulong` addition does. */
  function ShiftedCoeffAt(B: Poly, e: I64, x: int): Coeff
  {
    if |B| == 0 then 0
    else (if ShiftExp(B[0].exp, e) == x then B[0].coeff else 0) + ShiftedCoeffAt(B[1..], e, x)
  }

  /** No exponent of `B` leaves the `ulong` range when shifted by `e`. */
  predicate NoWrap(B: Poly, e: I64)
  {
    forall j :: 0 <= j < |B| ==> 0 <= B[j].exp + e < W64
  }

  /** The merge, one loop iteration per call: an A-only term is copied, a
      B-only term becomes -c*B[j] at B.exps[j]+e, and equal exponents give
      A[i] - c*B[j], dropped when it cancels to zero. */
  function MSub(A: Poly, B: Poly, c: Coeff, e: I64): (R: Poly)
    ensures |R| <= |A| + |B|
    decreases |A| + |B|
  {
    if |A| == 0 && |B| == 0 then []
    else if |A| > 0 && (|B| == 0 || A[0].exp > ShiftExp(B[0].exp, e)) then
      [A[0]] + MSub(A[1..], B, c, e)
    else if |B| > 0 && (|A| == 0 || ShiftExp(B[0].exp, e) > A[0].exp) then
      [Term(ShiftExp(B[0].exp, e), -(c * B[0].coeff))] + MSub(A, B[1..], c, e)
    else
      var d := A[0].coeff - c * B[0].coeff;
      (if d != 0 then [Term(A[0].exp, d)] else []) + MSub(A[1..], B[1..], c, e)
  }

  /** The term kinds msub emits. */
  predicate FromA(t: Term, A: Poly)
  {
    exists i :: 0 <= i < |A| && A[i] == t
  }

  predicate FromB(t: Term, B: Poly, c: Coeff, e: I64)
  {
    exists j :: 0 <= j < |B| && t == Term(ShiftExp(B[j].exp, e), -(c * B[j].coeff))
  }

  predicate FromBoth(t: Term, A: Poly, B: Poly, c: Coeff, e: I64)
  {
    exists i, j :: 0 <= i < |A| && 0 <= j < |B| &&
      A[i].exp == ShiftExp(B[j].exp, e) &&
      t == Term(A[i].exp, A[i].coeff - c * B[j].coeff) && t.coeff != 0
  }

  predicate TermKind(t: Term, A: Poly, B: Poly, c: Coeff, e: I64)
  {
    FromA(t, A) || FromB(t, B, c, e) || FromBoth(t, A, B, c, e)
  }

  /** Every term of the result is one of the three kinds. */
  lemma {:induction false} MSubTermKinds(A: Poly, B: Poly, c: Coeff, e: I64)
    ensures forall k :: 0 <= k < |MSub(A, B, c, e)| ==> TermKind(MSub(A, B, c, e)[k], A, B, c, e)
    decreases |A| + |B|
  {
    var R := MSub(A, B, c, e);
    if |A| == 0 && |B| == 0 {
    } else if |A| > 0 && (|B| == 0 || A[0].exp > ShiftExp(B[0].exp, e)) {
      MSubTermKinds(A[1..], B, c, e);
      forall k | 0 <= k < |R|
        ensures TermKind(R[k], A, B, c, e)
      {
        if k == 0 {
          assert FromA(R[k], A);
        } else {
          var t := R[k];
          assert t == MSub(A[1..], B, c, e)[k - 1];
          KindsWiden(t, A[1..], B, A, B, c, e, 1, 0);
        }
      }
    } else if |B| > 0 && (|A| == 0 || ShiftExp(B[0].exp, e) > A[0].exp) {
      MSubTermKinds(A, B[1..], c, e);
      forall k | 0 <= k < |R|
        ensures TermKind(R[k], A, B, c, e)
      {
        if k == 0 {
          assert B[0] == B[0];
          assert FromB(R[k], B, c, e);
        } else {
          var t := R[k];
          assert t == MSub(A, B[1..], c, e)[k - 1];
          KindsWiden(t, A, B[1..], A, B, c, e, 0, 1);
        }
      }
    } else {
      var d := A[0].coeff - c * B[0].coeff;
      var H := if d != 0 then [Term(A[0].exp, d)] else [];
      MSubTermKinds(A[1..], B[1..], c, e);
      assert R == H + MSub(A[1..], B[1..], c, e);
      forall k | 0 <= k < |R|
        ensures TermKind(R[k], A, B, c, e)
      {
        if k < |H| {
          assert A[0].exp == ShiftExp(B[0].exp, e);
          assert FromBoth(R[k], A, B, c, e) by {
            assert 0 < |A| && 0 < |B|;
          }
        } else {
          var t := R[k];
          assert t == MSub(A[1..], B[1..], c, e)[k - |H|];
          KindsWiden(t, A[1..], B[1..], A, B, c, e, 1, 1);
        }
      }
    }
  }

  /** A kind with respect to suffixes of A and B is a kind with respect to A
      and B. */
  lemma KindsWiden(t: Term, A': Poly, B': Poly, A: Poly, B: Poly, c: Coeff, e: I64, da: nat, db: nat)
    requires da <= |A| && db <= |B| && A' == A[da..] && B' == B[db..]
    requires TermKind(t, A', B', c, e)
    ensures TermKind(t, A, B, c, e)
  {
    if FromA(t, A') {
      var i :| 0 <= i < |A'| && A'[i] == t;
      assert A[i + da] == t;
    } else if FromB(t, B', c, e) {
      var j :| 0 <= j < |B'| && t == Term(ShiftExp(B'[j].exp, e), -(c * B'[j].coeff));
      assert B[j + db] == B'[j];
    } else {
      var i, j :| 0 <= i < |A'| && 0 <= j < |B'| &&
        A'[i].exp == ShiftExp(B'[j].exp, e) &&
        t == Term(A'[i].exp, A'[i].coeff - c * B'[j].coeff) && t.coeff != 0;
      assert A[i + da] == A'[i] && B[j + db] == B'[j];
    }
  }

  /** msub computes A - c*B*X^e coefficient by coefficient, whatever the
      order of its inputs. */
  lemma {:induction false} MSubCoeff(A: Poly, B: Poly, c: Coeff, e: I64, x: int)
    ensures CoeffAt(MSub(A, B, c, e), x) == CoeffAt(A, x) - c * ShiftedCoeffAt(B, e, x)
    decreases |A| + |B|
  {
    if |A| == 0 && |B| == 0 {
    } else if |A| > 0 && (|B| == 0 || A[0].exp > ShiftExp(B[0].exp, e)) {
      MSubCoeff(A[1..], B, c, e, x);
      CoeffAtCons(A[0], MSub(A[1..], B, c, e), x);
    } else if |B| > 0 && (|A| == 0 || ShiftExp(B[0].exp, e) > A[0].exp) {
      MSubCoeff(A, B[1..], c, e, x);
      CoeffAtCons(Term(ShiftExp(B[0].exp, e), -(c * B[0].coeff)), MSub(A, B[1..], c, e), x);
      ScaleSplit(c, B[0].coeff, ShiftedCoeffAt(B[1..], e, x), ShiftExp(B[0].exp, e) == x);
    } else {
      var d := A[0].coeff - c * B[0].coeff;
      var H := if d != 0 then [Term(A[0].exp, d)] else [];
      MSubCoeff(A[1..], B[1..], c, e, x);
      CoeffAtAppend(H, MSub(A[1..], B[1..], c, e), x);
      if d != 0 {
        CoeffAtCons(Term(A[0].exp, d), [], x);
      }
      ScaleSplit(c, B[0].coeff, ShiftedCoeffAt(B[1..], e, x), ShiftExp(B[0].exp, e) == x);
    }
  }

  lemma ScaleSplit(c: int, b: int, rest: int, hit: bool)
    ensures c * ((if hit then b else 0) + rest) == (if hit then c * b else 0) + c * rest
  {
  }

  /** Without wrap-around the shifted coefficient is B's coefficient at
      `x - e`. */
  lemma {:induction false} ShiftedCoeffNoWrap(B: Poly, e: I64, x: int)
    requires NoWrap(B, e)
    ensures ShiftedCoeffAt(B, e, x) == CoeffAt(B, x - e)
  {
    if |B| > 0 {
      assert NoWrap(B[1..], e) by {
        forall j | 0 <= j < |B[1..]|
          ensures 0 <= B[1..][j].exp + e < W64
        {
          assert B[1..][j] == B[j + 1];
        }
      }
      ShiftedCoeffNoWrap(B[1..], e, x);
    }
  }

  /** A merged term's exponent is an exponent of A or a shifted exponent of B. */
  lemma MSubExps(A: Poly, B: Poly, c: Coeff, e: I64, k: nat)
    requires k < |MSub(A, B, c, e)|
    ensures HasExp(A, MSub(A, B, c, e)[k].exp) ||
            exists j :: 0 <= j < |B| && ShiftExp(B[j].exp, e) == MSub(A, B, c, e)[k].exp
  {
    MSubTermKinds(A, B, c, e);
    var t := MSub(A, B, c, e)[k];
    assert TermKind(t, A, B, c, e);
    if FromA(t, A) {
      var i :| 0 <= i < |A| && A[i] == t;
      assert HasExp(A, t.exp);
    } else if FromBoth(t, A, B, c, e) {
      var i, j :| 0 <= i < |A| && 0 <= j < |B| &&
        A[i].exp == ShiftExp(B[j].exp, e) &&
        t == Term(A[i].exp, A[i].coeff - c * B[j].coeff) && t.coeff != 0;
      assert HasExp(A, t.exp);
    }
  }

  /** Every exponent of the merge is below `bound` when every exponent of A and
      every shifted exponent of B is. */
  lemma MSubBelow(A: Poly, B: Poly, c: Coeff, e: I64, bound: int)
    requires forall i :: 0 <= i < |A| ==> A[i].exp < bound
    requires forall j :: 0 <= j < |B| ==> ShiftExp(B[j].exp, e) < bound
    ensures forall k :: 0 <= k < |MSub(A, B, c, e)| ==> MSub(A, B, c, e)[k].exp < bound
  {
    forall k | 0 <= k < |MSub(A, B, c, e)|
      ensures MSub(A, B, c, e)[k].exp < bound
    {
      MSubExps(A, B, c, e, k);
    }
  }

  /** B shifted by e is strictly descending. */
  predicate ShiftedDescending(B: Poly, e: I64)
  {
    forall i, j :: 0 <= i < j < |B| ==> ShiftExp(B[i].exp, e) > ShiftExp(B[j].exp, e)
  }

  lemma NoWrapShiftedDescending(B: Poly, e: I64)
    requires StrictlyDescending(B) && NoWrap(B, e)
    ensures ShiftedDescending(B, e)
  {
  }

  /** On strictly descending inputs the merge is strictly descending. */
  lemma {:induction false} MSubDescending(A: Poly, B: Poly, c: Coeff, e: I64)
    requires StrictlyDescending(A) && ShiftedDescending(B, e)
    ensures StrictlyDescending(MSub(A, B, c, e))
    decreases |A| + |B|
  {
    var R := MSub(A, B, c, e);
    if |A| == 0 && |B| == 0 {
    } else if |A| > 0 && (|B| == 0 || A[0].exp > ShiftExp(B[0].exp, e)) {
      MSubDescending(A[1..], B, c, e);
      MSubBelow(A[1..], B, c, e, A[0].exp);
      ConsDescending(A[0], MSub(A[1..], B, c, e));
    } else if |B| > 0 && (|A| == 0 || ShiftExp(B[0].exp, e) > A[0].exp) {
      var h := Term(ShiftExp(B[0].exp, e), -(c * B[0].coeff));
      MSubDescending(A, B[1..], c, e);
      MSubBelow(A, B[1..], c, e, h.exp);
      ConsDescending(h, MSub(A, B[1..], c, e));
    } else {
      var d := A[0].coeff - c * B[0].coeff;
      MSubDescending(A[1..], B[1..], c, e);
      if d != 0 {
        MSubBelow(A[1..], B[1..], c, e, A[0].exp);
        ConsDescending(Term(A[0].exp, d), MSub(A[1..], B[1..], c, e));
      } else {
        assert R == MSub(A[1..], B[1..], c, e);
      }
    }
  }

  lemma ConsDescending(h: Term, R: Poly)
    requires StrictlyDescending(R)
    requires forall k :: 0 <= k < |R| ==> R[k].exp < h.exp
    ensures StrictlyDescending([h] + R)
  {
  }

  /** msub on canonical inputs with a nonzero multiplier and no wrap-around
      yields a canonical list: strictly descending, no zero coefficient, and
      every exponent below 2^63 when B's shifted exponents are. */
  lemma MSubCanonical(A: Poly, B: Poly, c: Coeff, e: I64)
    requires Canonical(A) && Canonical(B) && c != 0 && NoWrap(B, e)
    requires forall j :: 0 <= j < |B| ==> B[j].exp + e < TopBit
    ensures Canonical(MSub(A, B, c, e))
  {
    NoWrapShiftedDescending(B, e);
    MSubDescending(A, B, c, e);
    MSubTermKinds(A, B, c, e);
    var R := MSub(A, B, c, e);
    forall k | 0 <= k < |R|
      ensures R[k].exp < TopBit && R[k].coeff != 0
    {
      var t := R[k];
      assert TermKind(t, A, B, c, e);
      if FromB(t, B, c, e) {
        var j :| 0 <= j < |B| && t == Term(ShiftExp(B[j].exp, e), -(c * B[j].coeff));
        NonzeroProduct(c, B[j].coeff);
      } else if FromBoth(t, A, B, c, e) {
        var i, j :| 0 <= i < |A| && 0 <= j < |B| &&
          A[i].exp == ShiftExp(B[j].exp, e) &&
          t == Term(A[i].exp, A[i].coeff - c * B[j].coeff) && t.coeff != 0;
      }
    }
  }

  lemma NonzeroProduct(a: int, b: int)
    requires a != 0 && b != 0
    ensures a * b != 0
  {
  }

  /** The three ways the merge takes one step, as separate facts. */
  lemma MSubUnfoldA(A: Poly, B: Poly, c: Coeff, e: I64)
    requires |A| > 0 && (|B| == 0 || A[0].exp > ShiftExp(B[0].exp, e))
    ensures MSub(A, B, c, e) == [A[0]] + MSub(A[1..], B, c, e)
  {
  }

  lemma MSubUnfoldB(A: Poly, B: Poly, c: Coeff, e: I64)
    requires !(|A| > 0 && (|B| == 0 || A[0].exp > ShiftExp(B[0].exp, e)))
    requires |B| > 0 && (|A| == 0 || ShiftExp(B[0].exp, e) > A[0].exp)
    ensures MSub(A, B, c, e) == [Term(ShiftExp(B[0].exp, e), -(c * B[0].coeff))] + MSub(A, B[1..], c, e)
  {
  }

  lemma MSubUnfoldBoth(A: Poly, B: Poly, c: Coeff, e: I64)
    requires |A| > 0 && |B| > 0 && A[0].exp == ShiftExp(B[0].exp, e)
    ensures MSub(A, B, c, e) ==
      (if A[0].coeff - c * B[0].coeff != 0 then [Term(A[0].exp, A[0].coeff - c * B[0].coeff)] else []) +
      MSub(A[1..], B[1..], c, e)
  {
  }

  /** One step of the loop when A's term is ahead. */
  lemma StepA(A: Poly, B: Poly, c: Coeff, e: I64, R: Poly, i: nat, j: nat)
    requires i < |A| && j <= |B| && (j == |B| || A[i].exp > ShiftExp(B[j].exp, e))
    ensures R + MSub(A[i..], B[j..], c, e) == (R + [A[i]]) + MSub(A[i + 1..], B[j..], c, e)
  {
    MSubUnfoldA(A[i..], B[j..], c, e);
    assert A[i..][1..] == A[i + 1..];
  }

  /** One step of the loop when B's shifted term is ahead. */
  lemma StepB(A: Poly, B: Poly, c: Coeff, e: I64, R: Poly, i: nat, j: nat)
    requires i <= |A| && j < |B|
    requires !(i < |A| && A[i].exp > ShiftExp(B[j].exp, e))
    requires i == |A| || ShiftExp(B[j].exp, e) > A[i].exp
    ensures R + MSub(A[i..], B[j..], c, e)
         == (R + [Term(ShiftExp(B[j].exp, e), -(c * B[j].coeff))]) + MSub(A[i..], B[j + 1..], c, e)
  {
    MSubUnfoldB(A[i..], B[j..], c, e);
    assert B[j..][1..] == B[j + 1..];
  }

  /** One step of the loop when the exponents meet. */
  lemma StepBoth(A: Poly, B: Poly, c: Coeff, e: I64, R: Poly, i: nat, j: nat)
    requires i < |A| && j < |B| && A[i].exp == ShiftExp(B[j].exp, e)
    ensures var d := A[i].coeff - c * B[j].coeff;
      R + MSub(A[i..], B[j..], c, e)
      == (if d != 0 then R + [Term(A[i].exp, d)] else R) + MSub(A[i + 1..], B[j + 1..], c, e)
  {
    MSubUnfoldBoth(A[i..], B[j..], c, e);
    assert A[i..][1..] == A[i + 1..];
    assert B[j..][1..] == B[j + 1..];
  }

  /** The source's loop, term by term, with indices i, j and output length k. */
  method MSubLoop(A: Poly, B: Poly, c: Coeff, e: I64) returns (R: Poly)
    ensures R == MSub(A, B, c, e)
    ensures |R| <= |A| + |B|
  {
    ghost var M := MSub(A, B, c, e);
    var i, j := 0, 0;
    R := [];
    while i < |A| || j < |B|
      invariant 0 <= i <= |A| && 0 <= j <= |B|
      invariant R + MSub(A[i..], B[j..], c, e) == M
      decreases |A| - i + |B| - j
    {
      if i < |A| && (j >= |B| || A[i].exp > ShiftExp(B[j].exp, e)) {
        StepA(A, B, c, e, R, i, j);
        R := R + [A[i]];
        i := i + 1;
      } else if j < |B| && (i >= |A| || ShiftExp(B[j].exp, e) > A[i].exp) {
        StepB(A, B, c, e, R, i, j);
        R := R + [Term(ShiftExp(B[j].exp, e), -(c * B[j].coeff))];
        j := j + 1;
      } else {
        StepBoth(A, B, c, e, R, i, j);
        var d := A[i].coeff - c * B[j].coeff;
        if d != 0 {
          R := R + [Term(A[i].exp, d)];
        }
        i, j := i + 1, j + 1;
      }
    }
    assert A[i..] == [] && B[j..] == [];
  }

  /** The sum of `t * B * X^e` over the quotient terms `(e, t)` of Q, at `X^x`. */
  function ApplyAt(Q: Poly, B: Poly, x: int): Coeff
  {
    if |Q| == 0 then 0
    else Q[0].coeff * CoeffAt(B, x - Q[0].exp) + ApplyAt(Q[1..], B, x)
  }

  /** The exponent of the leading term of a nonempty canonical list, the
      measure that strictly drops at each round of the divides loop. */
  function Lead(R: Poly): nat
  {
    if |R| == 0 then 0 else R[0].exp + 1
  }

  /** One round of fq_nmod_mpolyu_divides cancels the leading term of R: the
      new remainder is canonical and its leading exponent is lower. */
  lemma DivideStep(R: Poly, B: Poly, t: Coeff)
    requires Canonical(R) && Canonical(B) && |R| > 0 && |B| > 0
    requires R[0].exp >= B[0].exp && t * B[0].coeff == R[0].coeff
    ensures var e: I64 := R[0].exp - B[0].exp;
      Canonical(MSub(R, B, t, e)) && Lead(MSub(R, B, t, e)) < Lead(R)
  {
    var e: I64 := R[0].exp - B[0].exp;
    assert t != 0;
    assert NoWrap(B, e) && forall j :: 0 <= j < |B| ==> B[j].exp + e < TopBit by {
      forall j | 0 <= j < |B|
        ensures 0 <= B[j].exp + e < TopBit
      {
        assert B[j].exp <= B[0].exp;
      }
    }
    MSubCanonical(R, B, t, e);
    assert MSub(R, B, t, e) == MSub(R[1..], B[1..], t, e);
    MSubBelow(R[1..], B[1..], t, e, R[0].exp);
  }

  /** The fq_nmod_mpolyu_divides loop on a canonical remainder: stop with
      failure when the leading exponent of R is below B's or the leading
      coefficients do not divide, otherwise subtract t*B*X^e. On success the
      quotient terms (e, t) of the rounds are returned; they form a canonical
      list whose exponents are at most R's leading exponent less B's. */
  function DividesLoop(R: Poly, B: Poly): (res: Option<Poly>)
    requires Canonical(R) && Canonical(B) && |B| > 0
    ensures res.Some? ==> Canonical(res.value)
    ensures res.Some? ==> forall k :: 0 <= k < |res.value| ==> res.value[k].exp + B[0].exp < Lead(R)
    decreases Lead(R)
  {
    if |R| == 0 then Some([])
    else if R[0].exp < B[0].exp then None
    else if R[0].coeff % B[0].coeff != 0 then None
    else
      var t := R[0].coeff / B[0].coeff;
      var e: I64 := R[0].exp - B[0].exp;
      DivideStep(R, B, t);
      match DividesLoop(MSub(R, B, t, e), B)
      case None => None
      case Some(Q) =>
        QuotientStep(R, B, t, Q);
        Some([Term(e, t)] + Q)
  }

  /** Prepending a round's quotient term to the later rounds' quotient keeps
      it canonical and below R's leading exponent less B's. */
  lemma QuotientStep(R: Poly, B: Poly, t: Coeff, Q: Poly)
    requires Canonical(R) && Canonical(B) && |R| > 0 && |B| > 0
    requires R[0].exp >= B[0].exp && t * B[0].coeff == R[0].coeff
    requires Canonical(Q) && forall k :: 0 <= k < |Q| ==> Q[k].exp + B[0].exp < R[0].exp
    ensures var e: I64 := R[0].exp - B[0].exp;
      && Canonical([Term(e, t)] + Q)
      && forall k :: 0 <= k < |Q| + 1 ==> ([Term(e, t)] + Q)[k].exp + B[0].exp < Lead(R)
  {
    var e: I64 := R[0].exp - B[0].exp;
    assert t != 0;
    var P := [Term(e, t)] + Q;
    forall k | 0 <= k < |P|
      ensures P[k].exp + B[0].exp < Lead(R)
      ensures k > 0 ==> P[k].exp < e
    {
      if k > 0 {
        assert P[k] == Q[k - 1];
      }
    }
  }

  /** fq_nmod_mpolyu_divides: when it reports that B divides A, some
      canonical Q has A = Q*B. */
  function Divides(A: Poly, B: Poly): (b: bool)
    requires Canonical(A) && Canonical(B) && |B| > 0
    ensures b ==> exists Q :: Canonical(Q) && forall x :: CoeffAt(A, x) == ApplyAt(Q, B, x)
  {
    DividesSound(A, B);
    DividesLoop(A, B).Some?
  }

  lemma ApplyCons(q: Term, Q: Poly, B: Poly, x: int)
    ensures ApplyAt([q] + Q, B, x) == q.coeff * CoeffAt(B, x - q.exp) + ApplyAt(Q, B, x)
  {
    assert ([q] + Q)[1..] == Q;
  }

  /** One round in coefficient terms: R = R' + t*B*X^e. */
  lemma DivideStepCoeff(R: Poly, B: Poly, t: Coeff, e: I64, x: int)
    requires |B| > 0 && StrictlyDescending(B) && B[0].exp + e < W64 && e >= 0
    ensures CoeffAt(R, x) == CoeffAt(MSub(R, B, t, e), x) + t * CoeffAt(B, x - e)
  {
    assert NoWrap(B, e) by {
      forall j | 0 <= j < |B|
        ensures 0 <= B[j].exp + e < W64
      {
        assert B[j].exp <= B[0].exp;
      }
    }
    MSubCoeff(R, B, t, e, x);
    ShiftedCoeffNoWrap(B, e, x);
  }

  /** A successful divides loop has found a quotient: A equals the sum of
      t*B*X^e over the rounds, coefficient by coefficient. */
  lemma {:induction false} DividesSound(A: Poly, B: Poly)
    requires Canonical(A) && Canonical(B) && |B| > 0
    ensures DividesLoop(A, B).Some? ==> forall x :: CoeffAt(A, x) == ApplyAt(DividesLoop(A, B).value, B, x)
    decreases Lead(A)
  {
    if |A| > 0 && A[0].exp >= B[0].exp && A[0].coeff % B[0].coeff == 0 {
      var t := A[0].coeff / B[0].coeff;
      var e: I64 := A[0].exp - B[0].exp;
      DivideStep(A, B, t);
      var R' := MSub(A, B, t, e);
      DividesSound(R', B);
      if DividesLoop(R', B).Some? {
        var Q := DividesLoop(R', B).value;
        assert DividesLoop(A, B).value == [Term(e, t)] + Q;
        forall x
          ensures CoeffAt(A, x) == ApplyAt([Term(e, t)] + Q, B, x)
        {
          DivideStepCoeff(A, B, t, e, x);
          ApplyCons(Term(e, t), Q, B, x);
        }
      }
    }
  }
}
