/** Coefficient-wise negation of a polynomial over a finite field
    (_fq_poly_neg and fq_poly_neg, generated for every field type T).

    The element type is a type parameter and `neg` is T_neg. */
module FqPolyNeg {
  import opened Words

  /** The reference: every coefficient negated. */
  function Negated<T>(op: seq<T>, neg: T -> T): (r: seq<T>)
    ensures |r| == |op|
  {
    seq(|op|, i requires 0 <= i < |op| => neg(op[i]))
  }

  /** _T_poly_neg: writes neg(op[i]) to rop[i] for i < len; every slot of the
      output buffer from len on keeps its old contents. */
  method NegVec<T>(rop: seq<T>, op: seq<T>, len: nat, neg: T -> T) returns (r: seq<T>)
    requires len <= |rop| && len <= |op|
    ensures |r| == |rop|
    ensures forall i :: 0 <= i < len ==> r[i] == neg(op[i])
    ensures forall i :: len <= i < |rop| ==> r[i] == rop[i]
  {
    r := rop;
    var i := 0;
    while i < len
      invariant 0 <= i <= len
      invariant |r| == |rop|
      invariant forall k :: 0 <= k < i ==> r[k] == neg(op[k])
      invariant forall k :: i <= k < |rop| ==> r[k] == rop[k]
    {
      r := r[i := neg(op[i])];
      i := i + 1;
    }
  }

  /** _T_poly_neg with rop == op: slot i is read before it is written, so the
      in-place call computes what the call on a separate buffer computes. */
  method NegVecInPlace<T>(a: seq<T>, len: nat, neg: T -> T) returns (r: seq<T>)
    requires len <= |a|
    ensures |r| == |a|
    ensures forall i :: 0 <= i < len ==> r[i] == neg(a[i])
    ensures forall i :: len <= i < |a| ==> r[i] == a[i]
  {
    r := a;
    var i := 0;
    while i < len
      invariant 0 <= i <= len
      invariant |r| == |a|
      invariant forall k :: 0 <= k < i ==> r[k] == neg(a[k])
      invariant forall k :: i <= k < |a| ==> r[k] == a[k]
    {
      r := r[i := neg(r[i])];
      i := i + 1;
    }
  }

  /** T_poly_neg: grows the destination's storage `dest` to op's length,
      negates into it and sets the length to op's length. */
  method PolyNeg<T>(dest: seq<T>, op: seq<T>, neg: T -> T) returns (rop: seq<T>)
    ensures rop == Negated(op, neg)
  {
    var buf := dest;
    if |buf| < |op| {
      // fit_length: the new slots are initialised, their values unread
      buf := buf + op[|buf|..];
    }
    buf := NegVec(buf, op, |op|, neg);
    rop := buf[..|op|];
  }

  /** T_poly_neg with rop == op. */
  method PolyNegInPlace<T>(op: seq<T>, neg: T -> T) returns (rop: seq<T>)
    ensures rop == Negated(op, neg)
  {
    rop := NegVecInPlace(op, |op|, neg);
  }

  /** Negating twice gives back the polynomial when `neg` is an involution,
      as negation in a field is. */
  lemma NegatedInvolution<T>(op: seq<T>, neg: T -> T)
    requires forall x :: neg(neg(x)) == x
    ensures Negated(Negated(op, neg), neg) == op
  {
  }

  /** Negation in Z/pZ on reduced residues: an illustrative instance of
      T_neg for a prime field, not code of the template itself. */
  function NegMod(p: nat, x: int): (r: int)
    requires p >= 1
  {
    if x % p == 0 then 0 else p - x % p
  }

  /** NegMod gives the additive inverse, reduced, and is an involution on
      reduced residues. */
  lemma NegModInverse(p: nat, x: int)
    requires p >= 1 && 0 <= x < p
    ensures 0 <= NegMod(p, x) < p
    ensures (x + NegMod(p, x)) % p == 0
    ensures NegMod(p, NegMod(p, x)) == x
  {
    ModSmall(x, p);
    if x != 0 {
      ModSmall(p - x, p);
      DivModUnique(p, p, 1, 0);
      assert x + NegMod(p, x) == p;
    }
  }

  /** Negating a polynomial with reduced coefficients twice over Z/pZ gives
      it back. */
  lemma NegModPolyInvolution(p: nat, op: seq<int>)
    requires p >= 1
    requires forall i :: 0 <= i < |op| ==> 0 <= op[i] < p
    ensures Negated(Negated(op, x => NegMod(p, x)), x => NegMod(p, x)) == op
  {
    var neg := x => NegMod(p, x);
    forall i | 0 <= i < |op|
      ensures neg(neg(op[i])) == op[i]
    {
      NegModInverse(p, op[i]);
    }
  }
}
