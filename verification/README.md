# FLINT core routines in Dafny

This project models a handful of FLINT routines as pure functions on
immutable values, and proves what they compute.

- **fq_nmod_mpolyu** (`mpolyu.dfy`, `mpolyu_msub.dfy`, `mpolyu_convert.dfy`).
  A polynomial in a main variable X is a list of `(exponent, coefficient)`
  terms. Exponents are `ulong`; coefficients are multivariate polynomials.
  - The canonical form is checked by `is_canonical`:
    - exponents strictly descending;
    - no exponent with its top bit set;
    - no zero coefficient.
  - Modelled operations: coefficient lookup-or-insert, the two shifts, copy, one/is_one, `msub`, the `divides` loop, and the conversions to and from a dense univariate polynomial.
  - The coefficient ring is modelled by the integers, an integral domain. The length-0 multivariate polynomial is 0 and `fq_nmod_mpoly_one` is 1.
  - `CoeffAt(A, x)` is the coefficient a list denotes at `X^x`. Every merge and conversion is stated through it.
- **dlog_bsgs** (`dlog_bsgs.dfy`): the giant-step loop of baby-step giant-step discrete logarithm.
- **fq_ctx_init_modulus** (`fq_ctx.dfy`): the sparse copy of the modulus, the sparsity flag and the stored fields.
- **arb_poly_set_trunc_round** (`arb_poly_trunc.dfy`): both branches, over an abstract ball type.
- **_fq_poly_neg / fq_poly_neg** (`fq_poly_neg.dfy`): over an abstract element type, and over Z/pZ.
- **arb_exp_arf** (`exp_arf.dfy`): the integer and control-flow skeleton:
  - special values and the overflow ball;
  - the tiny and linear shortcuts;
  - working precision;
  - the table split;
  - the generic dispatch;
  - error and exponent fix-up.

  What foreign kernels report enters through an `Oracle` record. The arb.h tuning constants enter through a `Tuning` record.

Shared pieces:
- `words.dfy`:
  - `ulong` wrap-around (`Wrap`, modulo 2^64);
  - C's truncating division (`CDiv`);
  - powers of two and the shift/mask identities.
- `wrappers.dfy`: `Option`.

## Model

| member | source | states |
|---|---|---|
| MPolyU.IsCanonical | fq_nmod_mpoly/mpolyu.c:16-44 | returns true iff the exponents strictly descend, none has its top bit set, and no coefficient is zero |
| MPolyU.CanonicalExtensional | fq_nmod_mpoly/mpolyu.c:16-44 | two canonical lists that denote the same coefficient at every exponent are the same list |
| MPolyU.One | fq_nmod_mpoly/mpolyu.c:139-145 | the result is canonical and denotes the constant 1 (coefficient 1 at X^0, 0 elsewhere) |
| MPolyU.OneIsOne | fq_nmod_mpoly/mpolyu.c:83-89 | on a canonical list, is_one holds iff the list denotes the constant 1 |
| MPolyU.IsOne | fq_nmod_mpoly/mpolyu.c:83-89 | is_one (one term, exponent 0, coefficient one) accepts exactly the list that one builds |
| MPolyU.Set | fq_nmod_mpoly/mpolyu.c:215-245 | after copying over the destination's old storage and cutting it to B's length, the destination equals B |
| MPolyU.GetCoeff | fq_nmod_mpoly/mpolyu.c:148-177 | the returned slot holds exponent pow. On a sorted list holding pow, nothing changes. Otherwise a zero term is inserted at idx and the rest shifted up one. On a sorted list, idx separates the larger exponents from the smaller ones, and sortedness is preserved |
| MPolyU.ShiftRight | fq_nmod_mpoly/mpolyu.c:180-188 | the result keeps the length and denotes A divided by X^s: its coefficient at x is A's at x + s |
| MPolyU.ShiftLeft | fq_nmod_mpoly/mpolyu.c:190-197 | the result keeps the length; when no exponent wraps past 2^64 it denotes A times X^s: its coefficient at x is A's at x - s |
| MPolyU.ShiftRightKeepsOrder | fq_nmod_mpoly/mpolyu.c:180-188 | subtracting s from exponents that are all at least s keeps the list strictly descending and canonical |
| MPolyU.ShiftLeftKeepsOrder | fq_nmod_mpoly/mpolyu.c:190-197 | adding s without wrap-around keeps the list strictly descending; canonical while the new exponents stay below 2^63 |
| MPolyU.ShiftLeftWrapBreaksOrder | fq_nmod_mpoly/mpolyu.c:190-197 | with ulong wrap-around, shift_left can break the order: 2^64-1 shifted by 1 becomes 0 |
| MPolyU.ShiftRoundTrip | fq_nmod_mpoly/mpolyu.c:180-197 | shift_right undoes a non-wrapping shift_left; shift_left always undoes shift_right |
| MPolyUMsub.MSubCoeff | fq_nmod_mpoly/mpolyu.c:525-572 | at every exponent x, the result's coefficient is A's minus c times B's coefficient at x under the wrapped shift by e |
| MPolyUMsub.MSub | fq_nmod_mpoly/mpolyu.c:532-571 | the merge emits at most len(A)+len(B) terms, the room fit_length reserves for R |
| MPolyUMsub.ShiftedCoeffNoWrap | fq_nmod_mpoly/mpolyu.c:538-553 | without wrap-around, B shifted by e has at x the coefficient B has at x - e |
| MPolyUMsub.MSubTermKinds | fq_nmod_mpoly/mpolyu.c:536-568 | every output term is one of three kinds: a term of A copied; -c times a term of B at the shifted exponent; or a nonzero difference at an exponent both share |
| MPolyUMsub.MSubDescending | fq_nmod_mpoly/mpolyu.c:536-568 | the merge of strictly descending A and strictly descending shifted B is strictly descending |
| MPolyUMsub.MSubCanonical | fq_nmod_mpoly/mpolyu.c:525-572 | for canonical A and B, nonzero c, and shifted exponents below 2^63 with no wrap, the result is canonical: exact cancellations are dropped |
| MPolyUMsub.MSubLoop | fq_nmod_mpoly/mpolyu.c:536-571 | the two-index loop computes the merge and produces at most len(A)+len(B) terms |
| MPolyUMsub.DivideStep | fq_nmod_mpoly/mpolyu.c:587-596 | one round with t*B0 = R0 leaves a canonical remainder whose leading exponent is strictly smaller, so the loop terminates |
| MPolyUMsub.DividesSound | fq_nmod_mpoly/mpolyu.c:574-605 | when the loop ends with R empty, the quotient terms it collected satisfy A = Q*B coefficient by coefficient |
| MPolyUMsub.DividesLoop | fq_nmod_mpoly/mpolyu.c:585-597 | on success, the quotient terms (e, t) of the rounds form a canonical list, each e at most the leading exponent of R less that of B |
| MPolyUMsub.Divides | fq_nmod_mpoly/mpolyu.c:574-605 | a result of 1 means some canonical Q has A = Q*B at every exponent |
| MPolyUConvert.CvtFrom | fq_nmod_mpoly/mpolyu.c:315-345 | the result is canonical, and every term (i, c) has i below the length and c equal to the dense coefficient i |
| MPolyUConvert.CvtFromExps | fq_nmod_mpoly/mpolyu.c:315-345 | an exponent i appears iff dense coefficient i is nonzero |
| MPolyUConvert.CvtFromCoeff | fq_nmod_mpoly/mpolyu.c:315-345 | the sparse result denotes the same coefficient as the dense input at every exponent |
| MPolyUConvert.CvtTo | fq_nmod_mpoly/mpolyu.c:294-310 | the dense result is normalised and has at each exponent the coefficient the terms denote |
| MPolyUConvert.DenseRoundTrip | fq_nmod_mpoly/mpolyu.c:294-345 | cvtto_poly(cvtfrom_poly(a)) == a for a normalised a |
| MPolyUConvert.SparseRoundTrip | fq_nmod_mpoly/mpolyu.c:294-345 | cvtfrom_poly(cvtto_poly(A)) == A for a canonical A of constant terms |
| DlogBsgs.Dlog | src/dlog/bsgs.c:16-35 | None iff no probe among the g giant steps is in the table. On a hit, the answer is i*m + k in ulong arithmetic, where i is the first hitting step and k comes from a matching entry. A hit at step 0 returns k. Without wrap the answer is exactly i*m + k |
| DlogBsgs.Probe | src/dlog/bsgs.c:22-29 | after the first giant step the probe is a residue mod n. The probe at giant step i is b * am^i mod n (at step 0 when b is reduced) |
| FqCtx.InitModulus | fq/ctx_init_modulus.c:32-83 | len counts the nonzero coefficients. (a, j) lists exactly those coefficients with their exponents, in increasing order. sparse_modulus holds iff len < 6. Prime, variable name and modulus are stored unchanged |
| FqCtx.ScatterRoundTrip | fq/ctx_init_modulus.c:53-63 | scattering a at positions j rebuilds the modulus |
| FqCtx.SparseOfUnique | fq/ctx_init_modulus.c:53-63 | the sparse form (a, j) of a modulus is unique |
| ArbPolyTrunc.SetTruncRound | src/arb_poly/set_trunc_round.c:23-34 | length is at most min(n, len). The last kept input coefficient is not an exact zero, and every input coefficient from the result length to min(n, len) is. Each kept coefficient is rounded. This equals rounding the stripped first min(n, len) coefficients |
| ArbPolyTrunc.SetTruncRoundAliased | src/arb_poly/set_trunc_round.c:18-22 | an input no longer than n is rounded whole, trailing zeros included. A longer one keeps its first n coefficients less trailing exact zeros, each rounded |
| ArbPolyTrunc.NonAliasedUnique | src/arb_poly/set_trunc_round.c:27-33 | the length and coefficient facts of the non-aliased branch determine its result |
| ArbPolyTrunc.AliasedAgrees | src/arb_poly/set_trunc_round.c:15-35 | the aliased and non-aliased branches agree on a normalised input, and on any input longer than n |
| ArbPolyTrunc.AliasedKeepsTrailingZero | src/arb_poly/set_trunc_round.c:15-35 | on an unnormalised input no longer than n, the branches differ: only the aliased one keeps the trailing zero |
| ArbPolyTrunc.Strip | src/arb_poly/set_trunc_round.c:27-29 | the result is a prefix of the input without a trailing exact zero, and everything dropped is an exact zero |
| ArbPolyTrunc.Truncate | src/arb_poly/set_trunc_round.c:20 | an input no longer than n is unchanged. A longer one becomes a prefix of at most n coefficients with no trailing exact zero, and what it drops below n is exact zeros |
| FqPolyNeg.NegVec | fq_poly_templates/neg.c:32-40 | slot i below len receives neg(op[i]); every slot from len on is unchanged |
| FqPolyNeg.NegVecInPlace | fq_poly_templates/neg.c:38-39 | with rop == op, the result is what the call on separate buffers gives |
| FqPolyNeg.PolyNeg | fq_poly_templates/neg.c:42-48 | the result has op's length and every coefficient negated |
| FqPolyNeg.PolyNegInPlace | fq_poly_templates/neg.c:42-48 | negating in place gives the same polynomial |
| FqPolyNeg.NegModInverse | fq_poly_templates/neg.c:38-39 | for an illustrative prime-field T_neg (negation in Z/pZ), the result is the reduced additive inverse, and negation is an involution |
| FqPolyNeg.NegModPolyInvolution | fq_poly_templates/neg.c:42-48 | with that illustrative T_neg, negating a polynomial over Z/pZ twice gives it back |
| ExpArf.SpecialExpLimits | src/arb/exp_arf.c:131-155 | 0, +inf and -inf map to exact 1, +inf and 0 (minus one: 0, +inf, -1). NaN alone is indeterminate. The minus-one result is the plain result less one |
| ExpArf.SpecialExp | src/arb/exp_arf.c:131-155 | the special branch returns the limit of exp at 0, +inf, -inf (less one when asked), and an indeterminate ball exactly for NaN |
| ExpArf.ExpSpecial | src/arb/exp_arf.c:131-155 | arb_exp_arf answers every special input with the limit of exp, less one when asked |
| ExpArf.OverflowEncloses | src/arb/exp_arf.c:55-82 | a non-negative input gives the top ball. A negative one gives [0, 2^(1-2^expbound)] (less one when asked), which contains every value in (0, 2^(-2^expbound)] |
| ExpArf.Overflow | src/arb/exp_arf.c:55-82 | the top ball exactly for a non-negative input. Otherwise the ball 2^t +/- 2^t with t < -expbound, shifted by one exactly when asked |
| ExpArf.ExpOverflowIff | src/arb/exp_arf.c:156-213 | the overflow ball is returned iff the exponent is a huge positive fmpz, or exceeds maglim after the shortcuts. Then exp - 1 >= maglim (when maglim is an inline fmpz), and the ball is the top ball iff x >= 0 |
| ExpArf.ExpTinyIff | src/arb/exp_arf.c:190-197 | midpoint 1 with radius 2^(exp+1) is returned iff exp is asked for and exp < -prec-4 |
| ExpArf.ExpLinearIff | src/arb/exp_arf.c:156-206 | the 1 + x shortcut is taken iff the exponent is a huge negative fmpz, or below -prec-4 (expm1) or -(prec/2)-4 (exp) past the tiny test. Its radius is 2^(2 exp), plus one ulp exactly when the addition rounded |
| ExpArf.WorkingPrecision | src/arb/exp_arf.c:221-231 | wn >= 1 and wprounded = 64*wn. prec + 8 <= wp <= wprounded and wprounded - wp <= 60 |
| ExpArf.WorkingPrecisionBounds | src/arb/exp_arf.c:221-231 | wprounded is the least multiple of 64 holding the requested bits, and 1 << (wprounded - wp) fits a limb |
| ExpArf.TableSplit | src/arb/exp_arf.c:262-281 | one table at wp <= ARB_EXP_TAB1_PREC, two beyond. p1 < 2^q1bits. With one table, p2 = 0, the rest is below 2^(64-q1bits), and top = p1 * 2^(64-q1bits) + rest. With two, p2 < 2^(q2bits-q1bits), the rest is below 2^(64-q2bits), and top = p1 * 2^(64-q1bits) + p2 * 2^(64-q2bits) + rest |
| ExpArf.TakeTopSplits | src/arb/exp_arf.c:268-269 | the shift-and-subtract never wraps: it leaves the index and the low bits, which recombine to the limb |
| ExpArf.TaylorErrorNoWrap | src/arb/exp_arf.c:290-327 | without wrap, the error grows by the kernel error plus 2^(wprounded-wp). On the sinh/cosh path it becomes twice that plus one |
| ExpArf.Fixup | src/arb/exp_arf.c:329-388 | with no table entry used, n, the error and wn + 1 output limbs are kept. Otherwise n grows by 2 (one table) or 3 (two tables), and the error becomes error/2 + 6 or error/2 + 8, with no wrap-around |
| ExpArf.GenericPathChoice | src/arb/exp_arf.c:84-126 | reduction by log(2) iff mag > 64, or mag > 8 with prec < 10^6. Otherwise prec < 10000 or a very small input selects rectangular splitting, and a short mantissa at high precision selects bit-burst |
| ExpArf.GenericPath | src/arb/exp_arf.c:84-126 | mag > 64 always reduces by log(2), and that path needs mag > 8. Below it, prec < 10000 or a very small input gives rectangular splitting, and a short mantissa at high precision gives bit-burst |
| ExpArf.ThreadsFavourBitBurst | src/arb/exp_arf.c:108-115 | with several threads, rectangular splitting is chosen only where one thread would choose it too |
| ExpArf.ExpTablePath | src/arb/exp_arf.c:221-391 | past the shortcuts, the generic algorithm is used iff wp exceeds ARB_EXP_TAB2_PREC or the reduction mod log(2) fails. Otherwise the result has wprounded = 64*wn >= prec + 8 and the exponent raised by 0, 2 or 3. It has wn + 1 limbs iff the exponent was not raised, and one ulp is added only without minus_one |
| ExpArf.TablePath | src/arb/exp_arf.c:221-391 | the result is the generic fallback or a fixed-point ball with wprounded = 64*wn >= prec + 8. Its exponent is raised by 0, 2 or 3, and it keeps wn + 1 limbs iff the exponent was not raised |
| ExpArf.Exp | src/arb/exp_arf.c:128-413 | an exact, infinite or indeterminate answer is given iff the input is special. The tiny shortcut's radius is below 2^(-prec-3). The inline-exponent linear shortcut's radius is at most 2^(-prec-9). The table path works with at least prec + 8 bits |

## Left out

- fq_nmod_mpolyu init, clear, swap, zero and fit_length (mpolyu.c:46-81, 107-137) are allocation plumbing; value semantics replace them.
- print_pretty (mpolyu.c:91-105) is output only.
- scalar_mul_fq_nmod (mpolyu.c:199-212) is a coefficient-ring multiplication loop outside the modelled core.
- fq_nmod_mpoly_to_mpolyu_perm, from_mpolyu_perm and cvtfrom_poly_notmain (mpolyu.c:249-286, 350-522) need the packed-exponent helpers, which are not part of this model.
- divexact_mpoly and mul_mpoly (mpolyu.c:611-705) are thin wrappers over the Johnson and Monagan–Pearce kernels, which are not part of this model.
- The coefficient ring of mpolyu is the integers. The Johnson product in msub becomes integer multiplication. The Monagan–Pearce exact division in divides becomes integer exact division (the quotient when the remainder is 0).
- MPolyUMsub.DividesSound: only soundness is proved. That divides returns 1 whenever B divides A is not stated.
- MPolyUMsub.Divides: states only that a result of 1 is sound, for the same reason.
- MPolyU.IsCanonical: with integer coefficients, the per-coefficient fq_nmod_mpoly_is_canonical test (mpolyu.c:33) always holds. The iff covers the exponent checks and the zero-coefficient check only.
- MPolyUConvert.CvtTo: fq_nmod_poly_set_coeff is not part of this model. It is taken as extend with zeros, store, then normalise.
- MPolyUConvert.CvtFrom: requires a length of at most 2^63, the range of an `slong` length.
- The loop counters of fq_ctx_init_modulus are C `int`. Their 32-bit range is not modelled: the modulus length is unbounded here.
- The precomputed inverse of the reversed modulus (ctx_init_modulus.c:75-79) uses fmpz_mod_poly routines that are not part of this model.
- The degree argument `d` of fq_ctx_init_modulus is not read by the routine, and the model ignores it too.
- The bsgs table construction and bsearch are not part of this model. The table is any sequence, and the search is any matching entry.
- The throw after the last giant step becomes a `None` result.
- ArbPolyTrunc.Truncate: arb_poly_truncate is not part of this model. It is taken as: when longer than n, cut to n and drop trailing exact zeros.
- ArbPolyTrunc: arb_is_zero and arb_set_round are uninterpreted function parameters. What rounding does to a ball's value is not modelled.
- ArbPolyTrunc.SetTruncRound: n is a `nat`. For a negative slong n the non-aliased branch sets rlen = n, skips the zero-stripping loop, and passes the negative length to arb_poly_fit_length and _arb_poly_set_length (set_trunc_round.c:25-33). The model does not cover that case.
- ArbPolyTrunc.SetTruncRoundAliased: n is a `nat`. For a negative n the aliased branch hands n to arb_poly_truncate (set_trunc_round.c:20), which is not part of this model.
- fq_neg is an abstract function parameter, as T_neg is in neg.c.
- FqPolyNeg.NegModInverse: NegMod, the negation of a reduced residue in Z/pZ, is an illustrative prime-field instance of T_neg. It does not come from neg.c, which only calls T_neg.
- FqPolyNeg.NegModPolyInvolution: states the involution for that illustrative instance only.
- The real-number soundness of exp is not modelled.
- The Taylor kernels, mpn arithmetic, reduction modulo log(2) and the exp tables are not part of this model. The same holds for arb_exp_arf_huge, arb_exp_arf_bb, arb_exp_arf_rs_generic and arb_exp_arf_log_reduction.
- The generic dispatch, log-reduction and huge paths are reported as which routine is called. Their results are not modelled.
- arf_abs_bound_lt_2exp_si is taken as the exponent of x.
- The leading-zero count r only feeds _arb_exp_taylor_bound, which is not part of this model.
- The Taylor term count N is an oracle input. The test N < 60 (exp_arf.c:290) is modelled: it selects between the plain Taylor error and the sinh/cosh error formula in `AddErrors`. The halving N = (N + 1) / 2 only feeds the foreign sinh kernel.
- The arb.h constants are fields of a `Tuning` record, because arb.h is not part of this model: ARB_EXP_TAB1_PREC, TAB1_BITS, TAB21_BITS, TAB22_BITS, TAB2_PREC and the log-reduction precision range.
- ExpArf.Exp: requires prec >= 2 (the precision arb routines assume) and maglim >= 0.
- ExpArf.Exp: slong overflow in prec + 8 - exp and in the other precision arithmetic is not modelled.
- ExpArf.ExpOverflowIff: the bound |x| >= 2^maglim on the huge-fmpz path is stated only for maglim below 2^62. A larger maglim with an exponent just above 2^62 reaches the overflow branch with |x| < 2^maglim.
- ExpArf.OverflowEncloses: arb_sub_ui's rounding when one is subtracted is not modelled. The interval shown is the exact shift.
- ExpArf.TaylorErrorNoWrap: states the error only when no ulong wrap-around happens, which the source assumes.
- src/arb/const_apery.c is a hypergeometric series over routines that are not part of this model.
