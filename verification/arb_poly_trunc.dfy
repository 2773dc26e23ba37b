/** arb_poly_set_trunc_round: the first n coefficients of a ball polynomial,
    with trailing exact zeros stripped, each rounded to `prec` bits.

    The ball type is a type parameter: `isZero` is arb_is_zero (an exact zero
    ball) and `round` is arb_set_round, both left uninterpreted. */
module ArbPolyTrunc {

  /** The last stored coefficient is not an exact zero (arb_poly's
      normalised form). */
  predicate NoTrailingZero<C>(p: seq<C>, isZero: C -> bool)
  {
    |p| == 0 || !isZero(p[|p| - 1])
  }

  /** _arb_poly_normalise: drops trailing exact zeros. */
  function Strip<C>(p: seq<C>, isZero: C -> bool): (r: seq<C>)
    ensures |r| <= |p| && r == p[..|r|]
    ensures NoTrailingZero(r, isZero)
    ensures forall i :: |r| <= i < |p| ==> isZero(p[i])
  {
    if |p| == 0 || !isZero(p[|p| - 1]) then p else Strip(p[..|p| - 1], isZero)
  }

  /** Stripping a normalised list changes nothing; stripping is idempotent. */
  lemma StripNormalised<C>(p: seq<C>, isZero: C -> bool)
    ensures NoTrailingZero(p, isZero) ==> Strip(p, isZero) == p
    ensures Strip(Strip(p, isZero), isZero) == Strip(p, isZero)
  {
  }

  /** arb_poly_truncate: a polynomial no longer than n is kept whole; a
      longer one keeps a prefix of its first n coefficients, dropping only
      trailing exact zeros. */
  function Truncate<C>(p: seq<C>, n: nat, isZero: C -> bool): (r: seq<C>)
    ensures |r| <= |p| && r == p[..|r|]
    ensures |p| <= n ==> r == p
    ensures |p| > n ==> |r| <= n && NoTrailingZero(r, isZero)
    ensures |p| > n ==> forall i :: |r| <= i < n ==> isZero(p[i])
  {
    if |p| > n then Strip(p[..n], isZero) else p
  }

  /** _arb_vec_set_round over the whole list. */
  function RoundAll<C>(p: seq<C>, prec: int, round: (C, int) -> C): (r: seq<C>)
  {
    seq(|p|, i requires 0 <= i < |p| => round(p[i], prec))
  }

  /** The aliased branch (res == poly): truncate in place, then round every
      remaining coefficient in place. An input no longer than n is rounded
      whole, trailing zeros included; a longer one loses its coefficients
      from n on and then its trailing exact zeros. */
  function SetTruncRoundAliased<C>(p: seq<C>, n: nat, prec: int, isZero: C -> bool, round: (C, int) -> C): (r: seq<C>)
    ensures |r| <= |p| && (|r| <= n || |r| == |p|)
    ensures forall i :: 0 <= i < |r| ==> r[i] == round(p[i], prec)
    ensures |p| <= n ==> r == RoundAll(p, prec, round)
    ensures |p| > n ==> r == RoundAll(Strip(p[..n], isZero), prec, round)
  {
    RoundAll(Truncate(p, n, isZero), prec, round)
  }

  /** The non-aliased branch: rlen starts at min(n, len) and steps down past
      exact zeros; then the first rlen coefficients are rounded into `res`.
      The input is a value, so it is left unchanged. */
  method SetTruncRound<C>(poly: seq<C>, n: nat, prec: int, isZero: C -> bool, round: (C, int) -> C)
    returns (res: seq<C>)
    ensures |res| <= n && |res| <= |poly|
    ensures |res| > 0 ==> !isZero(poly[|res| - 1])
    ensures forall i :: |res| <= i < n && i < |poly| ==> isZero(poly[i])
    ensures forall i :: 0 <= i < |res| ==> res[i] == round(poly[i], prec)
    ensures res == RoundAll(Strip(poly[..if n < |poly| then n else |poly|], isZero), prec, round)
  {
    var rlen := if n < |poly| then n else |poly|;
    while rlen > 0 && isZero(poly[rlen - 1])
      invariant 0 <= rlen <= n && rlen <= |poly|
      invariant forall i :: rlen <= i < n && i < |poly| ==> isZero(poly[i])
    {
      rlen := rlen - 1;
    }
    res := [];
    var i := 0;
    while i < rlen
      invariant 0 <= i <= rlen
      invariant |res| == i
      invariant forall k :: 0 <= k < i ==> res[k] == round(poly[k], prec)
    {
      res := res + [round(poly[i], prec)];
      i := i + 1;
    }
    NonAliasedUnique(poly, n, prec, isZero, round, res);
  }

  /** The non-aliased result, stated through truncation and normalisation:
      the contract of `SetTruncRound` pins down exactly this list. */
  lemma {:induction false} NonAliasedUnique<C>(poly: seq<C>, n: nat, prec: int, isZero: C -> bool, round: (C, int) -> C, res: seq<C>)
    requires |res| <= n && |res| <= |poly|
    requires |res| > 0 ==> !isZero(poly[|res| - 1])
    requires forall i :: |res| <= i < n && i < |poly| ==> isZero(poly[i])
    requires forall i :: 0 <= i < |res| ==> res[i] == round(poly[i], prec)
    ensures res == RoundAll(Strip(poly[..if n < |poly| then n else |poly|], isZero), prec, round)
  {
    var q := poly[..if n < |poly| then n else |poly|];
    var s := Strip(q, isZero);
    if |res| > 0 {
      assert !isZero(q[|res| - 1]);
    }
    if |s| > 0 {
      assert !isZero(poly[|s| - 1]) && q[|s| - 1] == poly[|s| - 1];
    }
    assert |s| == |res|;
  }

  /** Both branches agree when the input is normalised or longer than n; an
      unnormalised input no longer than n keeps its trailing zeros only when
      aliased. */
  lemma {:induction false} AliasedAgrees<C>(poly: seq<C>, n: nat, prec: int, isZero: C -> bool, round: (C, int) -> C)
    requires NoTrailingZero(poly, isZero) || |poly| > n
    ensures SetTruncRoundAliased(poly, n, prec, isZero, round)
         == RoundAll(Strip(poly[..if n < |poly| then n else |poly|], isZero), prec, round)
  {
    if |poly| <= n {
      assert poly[..|poly|] == poly;
      StripNormalised(poly, isZero);
    }
  }

  /** A trailing zero within the first n coefficients survives the aliased
      branch but not the other one. */
  lemma AliasedKeepsTrailingZero()
    ensures SetTruncRoundAliased([0, 1, 0], 3, 53, (x: int) => x == 0, (x: int, p: int) => x) == [0, 1, 0]
    ensures RoundAll(Strip([0, 1, 0][..3], (x: int) => x == 0), 53, (x: int, p: int) => x) == [0, 1]
  {
    var z := (x: int) => x == 0;
    assert [0, 1, 0][..3] == [0, 1, 0];
    assert Strip([0, 1, 0], z) == Strip([0, 1], z);
  }
}
