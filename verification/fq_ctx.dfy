/** fq_ctx_init_modulus: the finite-field context keeps the defining
    polynomial both densely and as a sparse list of its nonzero coefficients
    (values `a`, exponents `j`), and flags the modulus as sparse when it has
    fewer than six nonzero terms. */
module FqCtx {

  /** The parts of fq_ctx_struct this routine fills. */
  datatype Ctx = Ctx(
    prime: int,
    len: nat,
    a: seq<int>,
    j: seq<nat>,
    sparseModulus: bool,
    varName: string,
    modulus: seq<int>)

  /** Below this many nonzero terms the modulus counts as sparse. */
  const SparseLimit: nat := 6

  /** The number of nonzero coefficients. */
  function NonzeroCount(m: seq<int>): nat
  {
    if |m| == 0 then 0
    else NonzeroCount(m[..|m| - 1]) + (if m[|m| - 1] != 0 then 1 else 0)
  }

  /** `(a, j)` lists the nonzero coefficients of `m` with their exponents, in
      increasing exponent order, and nothing else. */
  predicate SparseOf(m: seq<int>, a: seq<int>, j: seq<nat>)
  {
    && |a| == |j|
    && (forall k :: 0 <= k < |j| ==> j[k] < |m| && a[k] != 0 && a[k] == m[j[k]])
    && (forall k, l :: 0 <= k < l < |j| ==> j[k] < j[l])
    && (forall i :: 0 <= i < |m| && m[i] != 0 ==> i in j)
  }

  /** The coefficient the sparse form gives to X^i. */
  function SparseAt(a: seq<int>, j: seq<nat>, i: nat): int
    requires |a| == |j|
  {
    if |j| == 0 then 0
    else if j[0] == i then a[0]
    else SparseAt(a[1..], j[1..], i)
  }

  /** Scattering `a` into positions `j` of a zero vector. */
  function Scatter(a: seq<int>, j: seq<nat>, len: nat): seq<int>
    requires |a| == |j|
  {
    seq(len, i requires 0 <= i < len => SparseAt(a, j, i))
  }

  lemma {:induction false} SparseAtFound(a: seq<int>, j: seq<nat>, k: nat)
    requires |a| == |j| && k < |j|
    requires forall l :: 0 <= l < k ==> j[l] != j[k]
    ensures SparseAt(a, j, j[k]) == a[k]
  {
    if k > 0 && j[0] != j[k] {
      SparseAtFound(a[1..], j[1..], k - 1);
    }
  }

  lemma {:induction false} SparseAtMissing(a: seq<int>, j: seq<nat>, i: nat)
    requires |a| == |j| && i !in j
    ensures SparseAt(a, j, i) == 0
  {
    if |j| > 0 {
      assert forall l :: 0 <= l < |j| - 1 ==> j[1..][l] == j[l + 1];
      SparseAtMissing(a[1..], j[1..], i);
    }
  }

  /** Round trip: scattering the sparse form rebuilds the modulus. */
  lemma ScatterRoundTrip(m: seq<int>, a: seq<int>, j: seq<nat>)
    requires SparseOf(m, a, j)
    ensures Scatter(a, j, |m|) == m
  {
    forall i | 0 <= i < |m|
      ensures SparseAt(a, j, i) == m[i]
    {
      if m[i] != 0 {
        var k :| 0 <= k < |j| && j[k] == i;
        SparseAtFound(a, j, k);
      } else {
        forall k | 0 <= k < |j|
          ensures j[k] != i
        {
          assert a[k] != 0 && a[k] == m[j[k]];
        }
        SparseAtMissing(a, j, i);
      }
    }
  }

  /** The first listed exponent is the lowest nonzero coefficient. */
  lemma HeadIsLowest(m: seq<int>, a: seq<int>, j: seq<nat>)
    requires SparseOf(m, a, j) && |j| > 0
    ensures m[j[0]] != 0
    ensures forall i :: 0 <= i < j[0] ==> m[i] == 0
  {
    forall i | 0 <= i < j[0]
      ensures m[i] == 0
    {
      forall k | 0 <= k < |j|
        ensures j[k] != i
      {
        if k > 0 {
          assert j[0] < j[k];
        }
      }
    }
  }

  /** Dropping the head of the sparse form describes the modulus with that
      coefficient cleared. */
  lemma SparseTail(m: seq<int>, a: seq<int>, j: seq<nat>)
    requires SparseOf(m, a, j) && |j| > 0
    ensures SparseOf(m[j[0] := 0], a[1..], j[1..])
  {
    var m' := m[j[0] := 0];
    forall k | 0 <= k < |j| - 1
      ensures j[1..][k] < |m'| && a[1..][k] != 0 && a[1..][k] == m'[j[1..][k]]
    {
      assert j[0] < j[k + 1];
    }
    forall i | 0 <= i < |m'| && m'[i] != 0
      ensures i in j[1..]
    {
      var l :| 0 <= l < |j| && j[l] == i;
      assert j[1..][l - 1] == j[l];
    }
  }

  /** The sparse form of a modulus is unique. */
  lemma {:induction false} SparseOfUnique(m: seq<int>, a: seq<int>, j: seq<nat>, a': seq<int>, j': seq<nat>)
    requires SparseOf(m, a, j) && SparseOf(m, a', j')
    ensures a == a' && j == j'
    decreases |j|
  {
    if |j| > 0 {
      HeadIsLowest(m, a, j);
      assert j[0] in j';
    }
    if |j'| > 0 {
      HeadIsLowest(m, a', j');
      assert j'[0] in j;
    }
    if |j| > 0 && |j'| > 0 {
      assert j[0] == j'[0];
      SparseTail(m, a, j);
      SparseTail(m, a', j');
      SparseOfUnique(m[j[0] := 0], a[1..], j[1..], a'[1..], j'[1..]);
      assert j == [j[0]] + j[1..] && j' == [j'[0]] + j'[1..];
      assert a == [a[0]] + a[1..] && a' == [a'[0]] + a'[1..];
    }
  }

  /** fq_ctx_init_modulus: count the nonzero coefficients, copy each with its
      exponent, set the sparsity flag, and store p, the variable name and the
      modulus. The degree argument `d` is not read. The precomputed inverse of
      the reversed modulus is not modelled. */
  method InitModulus(p: int, d: int, modulus: seq<int>, varName: string) returns (ctx: Ctx)
    ensures ctx.len == NonzeroCount(modulus) == |ctx.a| == |ctx.j|
    ensures SparseOf(modulus, ctx.a, ctx.j)
    ensures ctx.sparseModulus <==> ctx.len < SparseLimit
    ensures ctx.prime == p && ctx.varName == varName && ctx.modulus == modulus
  {
    var nz := 0;
    var i := 0;
    while i < |modulus|
      invariant 0 <= i <= |modulus|
      invariant nz == NonzeroCount(modulus[..i])
    {
      assert modulus[..i + 1][..i] == modulus[..i];
      if modulus[i] != 0 {
        nz := nz + 1;
      }
      i := i + 1;
    }
    assert modulus[..i] == modulus;

    var a: seq<int> := [];
    var js: seq<nat> := [];
    i := 0;
    while i < |modulus|
      invariant 0 <= i <= |modulus|
      invariant |a| == |js| == NonzeroCount(modulus[..i])
      invariant forall k :: 0 <= k < |js| ==> js[k] < i && a[k] != 0 && a[k] == modulus[js[k]]
      invariant forall k, l :: 0 <= k < l < |js| ==> js[k] < js[l]
      invariant forall i' :: 0 <= i' < i && modulus[i'] != 0 ==> i' in js
    {
      assert modulus[..i + 1][..i] == modulus[..i];
      if modulus[i] != 0 {
        a := a + [modulus[i]];
        js := js + [i];
      }
      i := i + 1;
    }
    assert modulus[..i] == modulus;

    ctx := Ctx(p, nz, a, js, nz < SparseLimit, varName, modulus);
  }
}
