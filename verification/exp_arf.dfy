/** The dispatch and bookkeeping of arb_exp_arf: special values, the huge and
    tiny exponent shortcuts, the working precision, the table-based argument
    reduction split and the exponent/error fix-up, down to the ball the
    routine assembles.

    Midpoint arithmetic, the Taylor kernels, the reduction modulo log(2) and
    the generic algorithms are foreign: what they report is read from an
    `Oracle`, and the constants of arb.h from a `Tuning` record. */
module ExpArf {
  import opened Words

  /** COEFF_MAX: the largest fmpz stored inline, 2^62 - 1 on 64-bit limbs. */
  const CoeffMax: int := 0x3FFF_FFFF_FFFF_FFFF

  /** COEFF_IS_MPZ: an exponent outside the inline fmpz range. */
  predicate IsMpz(e: int)
  {
    e < -CoeffMax || e > CoeffMax
  }

  /** An arf_t: a special value, or a nonzero number with its sign, exponent
      (2^(exp-1) <= |x| < 2^exp) and the bit length of its mantissa. */
  datatype Arf = Zero | PosInf | NegInf | NaN | Num(negative: bool, exp: int, bits: nat)

  /** The arb.h constants the routine reads. */
  datatype Tuning = Tuning(
    logReductionMinPrec: int,   // ARB_EXP_LOG_REDUCTION_PREC
    logReductionMaxPrec: int,   // ARB_LOG_REDUCTION_DEFAULT_MAX_PREC
    tab1Prec: int,              // ARB_EXP_TAB1_PREC
    tab1Bits: nat,              // ARB_EXP_TAB1_BITS
    tab21Bits: nat,             // ARB_EXP_TAB21_BITS
    tab22Bits: nat,             // ARB_EXP_TAB22_BITS
    tab2Prec: int)              // ARB_EXP_TAB2_PREC

  /** Table index widths that keep every shift below the limb width. */
  predicate ValidTuning(t: Tuning)
  {
    && 1 <= t.tab1Bits <= LimbBits
    && 1 <= t.tab21Bits
    && t.tab21Bits + t.tab22Bits <= LimbBits
  }

  /** What the foreign routines report on this call. */
  datatype Oracle = Oracle(
    addInexact: bool,     // arf_add_ui rounded
    modLog2Ok: bool,      // _arb_get_mpn_fixed_mod_log2 succeeded
    quotient: int,        // its quotient n
    modError: U64,        // its error, in ulps
    topLimb: U64,         // the top limb w[wn-1] of its remainder
    taylorTerms: int,     // _arb_exp_taylor_bound(-r, wp)
    taylorError: U64,     // the error the Taylor kernel reports
    setInexact: bool,     // _arf_set_mpn_fixed rounded
    threads: nat)         // flint_get_num_available_threads()

  /** The algorithms arb_exp_arf_generic can hand over to. */
  datatype Path = Huge | RectSplit | BinSplit

  /** The ball the routine produces, or the foreign routine it delegates to. */
  datatype Outcome =
    | Exact(v: int)                                 // arb_one, arb_zero, arb_set_si(z, -1)
    | PosInfinity                                   // arb_pos_inf
    | Indeterminate                                 // arb_indeterminate
    | Top                                           // midpoint 0, radius +inf
    | Pow2Ball(t: int, minusOne: bool)              // midpoint = radius = 2^t, less 1 when minusOne
    | NearOne(radExp: int)                          // midpoint 1, radius 2^radExp
    | Linear(addend: nat, radExp: int, addUlp: bool) // midpoint x + addend rounded, radius 2^radExp (+ 1 ulp)
    | LogReduction                                  // arb_exp_arf_log_reduction
    | Generic(path: Path)                           // arb_exp_arf_generic
    | Fixed(n: int, error: U64, wprounded: nat, finaln: nat, wn: nat, addUlp: bool, minusOne: bool)
      // midpoint: finaln limbs, wn of them fractional; radius error * 2^-wprounded (+ 1 ulp);
      // the ball scaled by 2^n, less 1 when minusOne

  // ---------------------------------------------------------------------
  // Special values

  /** Extended values of exp (and of exp - 1) at the special inputs. */
  datatype Ext = Fin(v: int) | PlusInf | Undefined

  /** The limits of exp at 0, +inf and -inf; undefined at NaN. */
  function ExpLimit(x: Arf): Ext
    requires !x.Num?
  {
    match x
    case Zero => Fin(1)
    case PosInf => PlusInf
    case NegInf => Fin(0)
    case NaN => Undefined
  }

  function SubOne(e: Ext): Ext
  {
    if e.Fin? then Fin(e.v - 1) else e
  }

  /** The value of an exact outcome. */
  function Denote(r: Outcome): Ext
  {
    match r
    case Exact(v) => Fin(v)
    case PosInfinity => PlusInf
    case _ => Undefined
  }

  /** The special-input branch: the limit of exp (less one when asked),
      and an indeterminate ball exactly for NaN. */
  function SpecialExp(x: Arf, minusOne: bool): (r: Outcome)
    requires !x.Num?
    ensures r.Exact? || r.PosInfinity? || r.Indeterminate?
    ensures Denote(r) == if minusOne then SubOne(ExpLimit(x)) else ExpLimit(x)
    ensures r.Indeterminate? <==> x.NaN?
  {
    if minusOne then
      if x.Zero? then Exact(0)
      else if x.PosInf? then PosInfinity
      else if x.NegInf? then Exact(-1)
      else Indeterminate
    else
      if x.Zero? then Exact(1)
      else if x.PosInf? then PosInfinity
      else if x.NegInf? then Exact(0)
      else Indeterminate
  }

  /** Special inputs give exactly the limit of exp (minus one), and the
      minus-one result is the plain result less one. */
  lemma SpecialExpLimits(x: Arf)
    requires !x.Num?
    ensures Denote(SpecialExp(x, false)) == ExpLimit(x)
    ensures Denote(SpecialExp(x, true)) == SubOne(ExpLimit(x))
    ensures Denote(SpecialExp(x, true)) == SubOne(Denote(SpecialExp(x, false)))
    ensures SpecialExp(x, false).Indeterminate? <==> x.NaN?
  {
  }

  // ---------------------------------------------------------------------
  // Overflow

  /** 2^t as a real. */
  function RPow2(t: int): (r: real)
    ensures r > 0.0
  {
    if t >= 0 then Pow2(t) as real else 1.0 / (Pow2(-t) as real)
  }

  lemma RPow2Double(t: int)
    ensures RPow2(t) + RPow2(t) == RPow2(t + 1)
  {
    if t < 0 {
      var a := Pow2(-t - 1) as real;
      assert Pow2(-t) as real == 2.0 * a;
      assert 1.0 / (2.0 * a) + 1.0 / (2.0 * a) == 1.0 / a;
    }
  }

  /** The lower and upper end of a ball the model knows exactly. */
  function Lo(r: Outcome): real
    requires r.Pow2Ball?
  {
    RPow2(r.t) - RPow2(r.t) - (if r.minusOne then 1.0 else 0.0)
  }

  function Hi(r: Outcome): real
    requires r.Pow2Ball?
  {
    RPow2(r.t) + RPow2(r.t) - (if r.minusOne then 1.0 else 0.0)
  }

  /** arb_exp_arf_overflow, for |x| >= 2^expbound: the whole line for a
      positive input; for a negative one the ball 2^t +/- 2^t with
      t = -2^expbound, less one when asked. */
  function Overflow(expbound: nat, negative: bool, minusOne: bool): (r: Outcome)
    ensures r.Top? <==> !negative
    ensures r.Pow2Ball? <==> negative
    ensures r.Pow2Ball? ==> r.minusOne == minusOne && r.t < -(expbound as int)
  {
    Pow2Above(expbound);
    if !negative then Top else Pow2Ball(-(Pow2(expbound) as int), minusOne)
  }

  /** A negative input overflows to the
      interval [0, 2^(1-2^expbound)] (shifted down by one when asked), which
      holds every value in (0, 2^(-2^expbound)]. */
  lemma OverflowEncloses(expbound: nat, negative: bool, minusOne: bool, y: real)
    ensures negative ==>
      var r := Overflow(expbound, negative, minusOne);
      var s := if minusOne then 1.0 else 0.0;
      && Lo(r) == -s
      && Hi(r) == RPow2(1 - Pow2(expbound)) - s
      && (0.0 < y <= RPow2(-(Pow2(expbound) as int)) ==> Lo(r) <= y - s <= Hi(r))
  {
    var t := -(Pow2(expbound) as int);
    RPow2Double(t);
    if negative {
      assert Overflow(expbound, negative, minusOne) == Pow2Ball(t, minusOne);
      assert t + 1 == 1 - Pow2(expbound);
    }
  }

  // ---------------------------------------------------------------------
  // Working precision

  datatype Prec = Prec(wp: int, wn: int, wprounded: int)

  /** wp = prec + 8 (plus -exp for expm1 of a small input), wn = the limbs
      holding wp bits, wprounded = their bit count, and wp raised to within
      FLINT_BITS - 4 of wprounded. */
  function WorkingPrecision(prec: int, exp: int, minusOne: bool): (p: Prec)
    requires prec >= 2
    ensures p.wn >= 1 && p.wprounded == LimbBits * p.wn
    ensures prec + 8 <= p.wp <= p.wprounded
    ensures p.wprounded - p.wp <= LimbBits - 4
  {
    var wp0 := prec + 8 + (if minusOne && exp <= 0 then -exp else 0);
    var wn := CDiv(wp0 + LimbBits - 1, LimbBits);
    var wprounded := LimbBits * wn;
    Prec(if wp0 >= wprounded - (LimbBits - 4) then wp0 else wprounded - (LimbBits - 4), wn, wprounded)
  }

  /** wprounded is the least multiple of FLINT_BITS holding the requested
      bits, and the final wp is the larger of the request and
      wprounded - (FLINT_BITS - 4); so `1 << (wprounded - wp)` fits a limb. */
  lemma WorkingPrecisionBounds(prec: int, exp: int, minusOne: bool)
    requires prec >= 2
    ensures var p := WorkingPrecision(prec, exp, minusOne);
      var wp0 := prec + 8 + (if minusOne && exp <= 0 then -exp else 0);
      && p.wprounded - LimbBits < wp0 <= p.wprounded
      && Pow2(p.wprounded - p.wp) < W64
  {
    var p := WorkingPrecision(prec, exp, minusOne);
    var d := p.wprounded - p.wp;
    Pow2Monotone(d + 1, 64);
    Pow2Limb();
  }

  // ---------------------------------------------------------------------
  // Table split

  /** Table indices p1, p2 taken from the top bits of the top limb, and the
      limb that remains. */
  datatype Split = Split(twoStep: bool, p1: U64, p2: U64, rest: U64, q1bits: nat, q2bits: nat)

  /** `p = w >> (FLINT_BITS - q); w -= p << (FLINT_BITS - q)` in `ulong`
      arithmetic. */
  function TakeTop(w: U64, q: nat): (U64, U64)
    requires 1 <= q <= LimbBits
  {
    Cut(w, Pow2(LimbBits - q))
  }

  /** `p = w / d; w -= p * d` in `ulong` arithmetic. */
  function Cut(w: U64, d: nat): (U64, U64)
    requires d >= 1
  {
    DivNonneg(w, d);
    var p := w / d;
    (p, Wrap(w - Wrap(p * d)))
  }

  /** The cut never wraps: it leaves the remainder modulo d. */
  lemma CutSplits(w: U64, d: nat)
    requires d >= 1
    ensures Cut(w, d).1 == w % d
    ensures w == Cut(w, d).0 * d + Cut(w, d).1
  {
    DivNonneg(w, d);
    var p := w / d;
    var low := w % d;
    assert w == p * d + low;
    MulMonotone(0, p, d);
    WrapSmall(p * d);
    WrapSmall(w - p * d);
  }

  /** Taking the top q bits of a limb whose top `lead` bits are clear leaves
      an index below 2^(q - lead) and the low FLINT_BITS - q bits, with no
      wrap-around. */
  lemma TakeTopSplits(w: U64, q: nat, lead: nat)
    requires lead < q <= LimbBits
    requires w < Pow2(LimbBits - lead)
    ensures TakeTop(w, q).0 < Pow2(q - lead)
    ensures TakeTop(w, q).1 == w % Pow2(LimbBits - q) < Pow2(LimbBits - q)
    ensures w == TakeTop(w, q).0 * Pow2(LimbBits - q) + TakeTop(w, q).1
  {
    var s := LimbBits - q;
    assert (q - lead) + s == LimbBits - lead;
    SplitBits(w, q - lead, s);
    CutSplits(w, Pow2(s));
  }

  /** The table-based argument reduction: one table at working precision up
      to ARB_EXP_TAB1_PREC, two tables beyond. The indices are bounded by
      their tables' sizes, the remaining limb has the used top bits clear,
      and the top limb is recovered from the indices and the remainder. */
  function TableSplit(top: U64, wp: int, t: Tuning): (s: Split)
    requires ValidTuning(t)
    ensures s.twoStep <==> wp > t.tab1Prec
    ensures 1 <= s.q1bits <= LimbBits && s.p1 < Pow2(s.q1bits)
    ensures !s.twoStep ==>
      && s.p2 == 0
      && s.rest < Pow2(LimbBits - s.q1bits)
      && top == s.p1 * Pow2(LimbBits - s.q1bits) + s.rest
    ensures s.twoStep ==>
      && s.q1bits <= s.q2bits <= LimbBits
      && s.p2 < Pow2(s.q2bits - s.q1bits)
      && s.rest < Pow2(LimbBits - s.q2bits)
      && top == s.p1 * Pow2(LimbBits - s.q1bits) + s.p2 * Pow2(LimbBits - s.q2bits) + s.rest
  {
    Pow2Limb();
    if wp <= t.tab1Prec then
      TakeTopSplits(top, t.tab1Bits, 0);
      var (p1, rest) := TakeTop(top, t.tab1Bits);
      Split(false, p1, 0, rest, t.tab1Bits, 0)
    else
      var q1 := t.tab21Bits;
      var q2 := t.tab21Bits + t.tab22Bits;
      TwoStepSplits(top, q1, q2);
      var (p1, w1) := TakeTop(top, q1);
      var (p2, rest) := TakeTop(w1, q2);
      Split(true, p1, p2, rest, q1, q2)
  }

  /** Two successive cuts at q1 and then q2 bits from the top. */
  lemma TwoStepSplits(top: U64, q1: nat, q2: nat)
    requires 1 <= q1 <= q2 <= LimbBits
    ensures var first := TakeTop(top, q1);
      var second := TakeTop(first.1, q2);
      && first.0 < Pow2(q1)
      && second.0 < Pow2(q2 - q1)
      && second.1 < Pow2(LimbBits - q2)
      && top == first.0 * Pow2(LimbBits - q1) + second.0 * Pow2(LimbBits - q2) + second.1
  {
    Pow2Limb();
    var first := TakeTop(top, q1);
    TakeTopSplits(top, q1, 0);
    var w1 := first.1;
    var second := TakeTop(w1, q2);
    if q1 < q2 {
      TakeTopSplits(w1, q2, q1);
    } else {
      ShiftedOut(w1, LimbBits - q2);
    }
    var a := Pow2(LimbBits - q1);
    var b := Pow2(LimbBits - q2);
    assert top == first.0 * a + w1;
    assert w1 == second.0 * b + second.1;
  }

  /** A limb below 2^k taken from its top 64 - k bits gives index 0 and
      leaves the limb unchanged. */
  lemma ShiftedOut(w: U64, k: nat)
    requires 1 <= LimbBits - k <= LimbBits && w < Pow2(k)
    ensures TakeTop(w, LimbBits - k) == (0, w)
  {
    DivBound(w, Pow2(k), 1);
    CutSplits(w, Pow2(k));
  }

  // ---------------------------------------------------------------------
  // Error accumulation and the exponent fix-up

  /** The error after the Taylor step, in ulps of 2^-wprounded, in `ulong`
      arithmetic: the kernel's error and the truncation error `1 << shift`
      are added; on the sinh/cosh path (60 terms or more) the cosh error is
      one more than the sinh error and the two are added. */
  function TaylorError(error: U64, kernelError: U64, terms: int, shift: nat): U64
    requires shift < LimbBits
  {
    AddErrors(error, kernelError, Pow2(shift), terms)
  }

  function AddErrors(error: U64, kernelError: U64, truncation: nat, terms: int): U64
  {
    var e := Wrap(Wrap(error + kernelError) + truncation);
    if terms < 60 then e
    else Wrap(e + Wrap(e + 1))
  }

  /** Without wrap-around the Taylor step adds the kernel and truncation
      errors, and the sinh/cosh path doubles that and adds one. */
  lemma TaylorErrorNoWrap(error: U64, kernelError: U64, terms: int, shift: nat)
    requires shift < LimbBits
    requires error + kernelError + Pow2(shift) < W64
    ensures var e := error + kernelError + Pow2(shift);
      && (terms < 60 ==> TaylorError(error, kernelError, terms, shift) == e)
      && (terms >= 60 && 2 * e + 1 < W64 ==> TaylorError(error, kernelError, terms, shift) == 2 * e + 1)
  {
    AddErrorsNoWrap(error, kernelError, Pow2(shift), terms);
  }

  lemma AddErrorsNoWrap(error: U64, kernelError: U64, k: nat, terms: int)
    requires error + kernelError + k < W64
    ensures var e := error + kernelError + k;
      && (terms < 60 ==> AddErrors(error, kernelError, k, terms) == e)
      && (terms >= 60 && 2 * e + 1 < W64 ==> AddErrors(error, kernelError, k, terms) == 2 * e + 1)
  {
    var e := error + kernelError + k;
    WrapSmall(error + kernelError);
    WrapSmall(e);
    if terms >= 60 && 2 * e + 1 < W64 {
      WrapSmall(e + 1);
      WrapSmall(2 * e + 1);
    }
  }

  /** The result of the fix-up after multiplying by the table entries. */
  datatype Fix = Fix(n: int, error: U64, finaln: nat)

  /** Halve, add 2, add `extra`, all in `ulong`. */
  function HalveAdd(error: U64, extra: nat): U64
  {
    Wrap(Wrap(Shr(error, 1) + 2) + extra)
  }

  /** Without a table entry the Taylor value is the result, with wn + 1
      limbs; with one, the value is halved and multiplied by the entries,
      which adds 2 (one table) or 3 (two tables) to the exponent n and turns
      the error e into e/2 + 6 or e/2 + 8, which never wraps. */
  function Fixup(s: Split, error: U64, n: int, wn: nat): (f: Fix)
    ensures (if s.twoStep then s.p1 == 0 && s.p2 == 0 else s.p1 == 0) ==>
      f == Fix(n, error, wn + 1)
    ensures !s.twoStep && s.p1 != 0 ==> f == Fix(n + 2, error / 2 + 6, wn)
    ensures s.twoStep && (s.p1 != 0 || s.p2 != 0) ==> f == Fix(n + 3, error / 2 + 8, wn)
    ensures f.n - n in {0, 2, 3}
  {
    if !s.twoStep then
      if s.p1 == 0 then Fix(n, error, wn + 1) else Fix(n + 2, HalveAdd(error, 4), wn)
    else
      if s.p1 == 0 && s.p2 == 0 then Fix(n, error, wn + 1) else Fix(n + 3, HalveAdd(error, 6), wn)
  }

  // ---------------------------------------------------------------------
  // The generic algorithm's dispatch

  /** arb_exp_arf_generic's choice, for mag = arf_abs_bound_lt_2exp_si(x):
      reduction by log(2) for large inputs, otherwise rectangular splitting
      or bit-burst, tuned by precision, mantissa size and threads. */
  function GenericPath(mag: int, prec: int, bits: nat, threads: nat): (r: Path)
    ensures mag > 64 ==> r.Huge?
    ensures r.Huge? ==> mag > 8
    ensures mag <= 8 && (prec < 10000 || 16 * mag < -prec - 15) ==> r.RectSplit?
    ensures mag <= 8 && prec >= 10000 && 16 * mag >= -prec && 128 * bits < prec - 127 ==> r.BinSplit?
  {
    if mag > 64 || (mag > 8 && prec < 1000000) then Huge
    else
      var wantRs :=
        if prec < 10000 || mag < CDiv(-prec, 16) then true
        else if bits < CDiv(prec, 128) then false
        else if threads == 1 then prec < 20000 || (prec < 1000000000 && mag < CDiv(-prec, 800))
        else prec < 10000 || (prec < 1000000000 && mag < CDiv(-prec, 200));
      if wantRs then RectSplit else BinSplit
  }

  /** Reduction by log(2) is chosen exactly for |x| >= 2^64, or |x| >= 2^8
      below a million bits; below 10000 bits a small input always gets
      rectangular splitting; a short mantissa at high precision gets
      bit-burst. */
  lemma GenericPathChoice(mag: int, prec: int, bits: nat, threads: nat)
    requires prec >= 2
    ensures GenericPath(mag, prec, bits, threads).Huge? <==> mag > 64 || (mag > 8 && prec < 1000000)
    ensures !GenericPath(mag, prec, bits, threads).Huge? && (prec < 10000 || 16 * mag < -prec - 15) ==>
      GenericPath(mag, prec, bits, threads).RectSplit?
    ensures (!GenericPath(mag, prec, bits, threads).Huge? && prec >= 10000 && 16 * mag >= -prec
             && 128 * bits < prec - 127) ==> GenericPath(mag, prec, bits, threads).BinSplit?
  {
  }

  /** With more than one thread, rectangular splitting is chosen only where a
      single thread would choose it too: parallelism favours bit-burst. */
  lemma ThreadsFavourBitBurst(mag: int, prec: int, bits: nat, threads: nat)
    requires prec >= 2 && threads >= 2
    ensures GenericPath(mag, prec, bits, threads).RectSplit? ==> GenericPath(mag, prec, bits, 1).RectSplit?
  {
    assert CDiv(-prec, 200) <= CDiv(-prec, 800) by {
      assert prec / 200 >= prec / 800;
    }
  }

  // ---------------------------------------------------------------------
  // arb_exp_arf

  /** The threshold below which exp(x) is taken as 1 + x. */
  function LinearBelow(prec: int, minusOne: bool): int
  {
    if minusOne then -prec - 4 else -CDiv(prec, 2) - 4
  }

  /** The table path, from the working precision on. */
  function TablePath(x: Arf, prec: int, minusOne: bool, t: Tuning, o: Oracle): (r: Outcome)
    requires x.Num? && prec >= 2 && ValidTuning(t)
    ensures r.Generic? || r.Fixed?
    ensures r.Fixed? ==>
      && r.wprounded == LimbBits * r.wn
      && prec + 8 <= r.wprounded
      && r.n - o.quotient in {0, 2, 3}
      && (r.finaln == r.wn + 1 <==> r.n == o.quotient)
  {
    var p := WorkingPrecision(prec, x.exp, minusOne);
    if p.wp > t.tab2Prec || !o.modLog2Ok then
      Generic(GenericPath(x.exp, prec, x.bits, o.threads))
    else
      var error := Wrap(o.modError * 3);
      var s := TableSplit(o.topLimb, p.wp, t);
      var e := TaylorError(error, o.taylorError, o.taylorTerms, p.wprounded - p.wp);
      var f := Fixup(s, e, o.quotient, p.wn);
      Fixed(f.n, f.error, p.wprounded, f.finaln, p.wn, !minusOne && o.setInexact, minusOne)
  }

  /** arb_exp_arf(z, x, prec, minus_one, maglim). */
  function Exp(x: Arf, prec: int, minusOne: bool, maglim: nat, t: Tuning, o: Oracle): (r: Outcome)
    requires prec >= 2 && ValidTuning(t)
    ensures (r.Exact? || r.PosInfinity? || r.Indeterminate?) <==> !x.Num?
    ensures r.NearOne? ==> r.radExp < -prec - 3
    ensures r.Linear? && !IsMpz(x.exp) ==> r.radExp <= -prec - 9
    ensures r.Fixed? ==> r.wprounded == LimbBits * r.wn && prec + 8 <= r.wprounded
  {
    if !x.Num? then SpecialExp(x, minusOne)
    else if IsMpz(x.exp) then
      if x.exp > 0 then Overflow(maglim, x.negative, minusOne)
      else Linear(if minusOne then 0 else 1, 2 * x.exp, o.addInexact)
    else if !minusOne && x.exp < -prec - 4 then NearOne(x.exp + 1)
    else if x.exp < LinearBelow(prec, minusOne) then
      Linear(if minusOne then 0 else 1, 2 * x.exp, o.addInexact)
    else if x.exp > maglim then Overflow(maglim, x.negative, minusOne)
    else if t.logReductionMinPrec <= prec <= t.logReductionMaxPrec then LogReduction
    else TablePath(x, prec, minusOne, t, o)
  }

  /** Special inputs are answered exactly. */
  lemma ExpSpecial(x: Arf, prec: int, minusOne: bool, maglim: nat, t: Tuning, o: Oracle)
    requires prec >= 2 && ValidTuning(t)
    requires !x.Num?
    ensures Denote(Exp(x, prec, minusOne, maglim, t, o))
         == if minusOne then SubOne(ExpLimit(x)) else ExpLimit(x)
  {
    SpecialExpLimits(x);
  }

  /** The tiny shortcut (midpoint 1, radius 2^(exp+1) >= 2|x|) is taken iff
      exp(x) is asked for and exp < -prec - 4. */
  lemma ExpTinyIff(x: Arf, prec: int, minusOne: bool, maglim: nat, t: Tuning, o: Oracle)
    requires prec >= 2 && ValidTuning(t)
    ensures var r := Exp(x, prec, minusOne, maglim, t, o);
      r.NearOne? <==> x.Num? && !IsMpz(x.exp) && !minusOne && x.exp < -prec - 4
    ensures var r := Exp(x, prec, minusOne, maglim, t, o);
      r.NearOne? ==> r.radExp == x.exp + 1
  {
  }

  /** The linear shortcut 1 + x (or x), radius 2^(2 exp) plus one ulp when
      the addition rounded, is taken iff the exponent is a huge negative
      fmpz, or below -prec - 4 (expm1) or -(prec/2) - 4 (exp) without
      taking the tiny shortcut. */
  lemma ExpLinearIff(x: Arf, prec: int, minusOne: bool, maglim: nat, t: Tuning, o: Oracle)
    requires prec >= 2 && ValidTuning(t)
    ensures var r := Exp(x, prec, minusOne, maglim, t, o);
      r.Linear? <==>
        && x.Num?
        && (if IsMpz(x.exp) then x.exp <= 0
            else (minusOne || x.exp >= -prec - 4) && x.exp < LinearBelow(prec, minusOne))
    ensures var r := Exp(x, prec, minusOne, maglim, t, o);
      r.Linear? ==>
        && r.radExp == 2 * x.exp
        && r.addend == (if minusOne then 0 else 1)
        && r.addUlp == o.addInexact
    ensures !minusOne && x.Num? && !IsMpz(x.exp) && -prec - 4 <= x.exp < -(prec / 2) - 4 ==>
      Exp(x, prec, minusOne, maglim, t, o).Linear?
  {
  }

  /** Overflow is reported only for an exponent that is a huge positive fmpz
      or above maglim after the shortcuts; then |x| >= 2^maglim as the
      overflow branch assumes, provided maglim is an inline fmpz. */
  lemma ExpOverflowIff(x: Arf, prec: int, minusOne: bool, maglim: nat, t: Tuning, o: Oracle)
    requires prec >= 2 && ValidTuning(t)
    ensures var r := Exp(x, prec, minusOne, maglim, t, o);
      (r.Top? || r.Pow2Ball?) <==>
        && x.Num?
        && (if IsMpz(x.exp) then x.exp > 0
            else x.exp >= LinearBelow(prec, minusOne) && (minusOne || x.exp >= -prec - 4) && x.exp > maglim)
    ensures var r := Exp(x, prec, minusOne, maglim, t, o);
      (r.Top? || r.Pow2Ball?) && maglim <= CoeffMax ==> x.exp - 1 >= maglim
    ensures var r := Exp(x, prec, minusOne, maglim, t, o);
      (r.Top? || r.Pow2Ball?) ==> (r.Top? <==> !x.negative)
  {
  }

  /** The table path runs only at working precisions the tables support,
      falls back to the generic algorithm otherwise, and returns a ball whose
      output length is wn + 1 limbs exactly when no table entry was used,
      with the exponent raised by 0, 2 or 3. */
  lemma ExpTablePath(x: Arf, prec: int, minusOne: bool, maglim: nat, t: Tuning, o: Oracle)
    requires prec >= 2 && ValidTuning(t)
    requires x.Num? && !IsMpz(x.exp)
    requires minusOne || x.exp >= -prec - 4
    requires x.exp >= LinearBelow(prec, minusOne) && x.exp <= maglim
    requires !(t.logReductionMinPrec <= prec <= t.logReductionMaxPrec)
    ensures var p := WorkingPrecision(prec, x.exp, minusOne);
      var r := Exp(x, prec, minusOne, maglim, t, o);
      && (p.wp > t.tab2Prec || !o.modLog2Ok <==> r.Generic?)
      && (r.Fixed? ==>
            && r.wprounded == LimbBits * r.wn
            && prec + 8 <= r.wprounded
            && r.n - o.quotient in {0, 2, 3}
            && (r.finaln == r.wn + 1 <==> r.n == o.quotient)
            && (r.addUlp ==> !minusOne))
  {
  }
}
