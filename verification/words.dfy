/** Machine-word arithmetic shared by the models: 64-bit limbs, C's truncating
    division, powers of two and the shift/mask identities the table split uses. */
module Words {

  /** FLINT_BITS on the 64-bit targets modelled here. */
  const LimbBits: nat := 64

  /** 2^64, the modulus of `ulong` arithmetic. */
  const W64: int := 0x1_0000_0000_0000_0000

  /** A `ulong` / `mp_limb_t` value. */
  type U64 = x: int | 0 <= x < 0x1_0000_0000_0000_0000

  /** An `slong` value. */
  type I64 = x: int | -0x8000_0000_0000_0000 <= x < 0x8000_0000_0000_0000

  /** Unsigned wrap-around of an integer into a `ulong`. */
  function Wrap(x: int): U64
  {
    x % W64
  }

  function Pow2(k: nat): (r: nat)
    ensures r >= 1
  {
    if k == 0 then 1 else 2 * Pow2(k - 1)
  }

  /** C's `/` for a positive divisor: rounds toward zero, unlike Dafny's `/`. */
  function CDiv(a: int, b: int): (q: int)
    requires b > 0
    ensures a >= 0 ==> q == a / b
    ensures a < 0 ==> q == -((-a) / b)
  {
    if a >= 0 then a / b else -((-a) / b)
  }

  /** `x >> s` on a non-negative value. */
  function Shr(x: nat, s: nat): nat
  {
    DivNonneg(x, Pow2(s));
    x / Pow2(s)
  }

  lemma DivNonneg(x: int, d: int)
    requires x >= 0 && d > 0
    ensures 0 <= x / d <= x
  {
    var q := x / d;
    var r := x % d;
    assert x == q * d + r && 0 <= r;
    if q < 0 {
      MulGe(-q, d);
      assert false;
    }
    if q > 0 {
      MulGe(q, d);
      MulMonotone(1, d, q);
    }
  }

  lemma {:induction false} Pow2Add(a: nat, b: nat)
    ensures Pow2(a + b) == Pow2(a) * Pow2(b)
  {
    if a > 0 {
      Pow2Add(a - 1, b);
      assert Pow2(a + b) == 2 * Pow2(a - 1 + b);
    }
  }

  lemma {:induction false} Pow2Monotone(a: nat, b: nat)
    requires a <= b
    ensures Pow2(a) <= Pow2(b)
  {
    if a < b {
      Pow2Monotone(a, b - 1);
    }
  }

  lemma {:induction false} Pow2Above(k: nat)
    ensures Pow2(k) > k
  {
    if k > 0 {
      Pow2Above(k - 1);
    }
  }

  lemma Pow2Limb()
    ensures Pow2(64) == W64
  {
    assert Pow2(4) == 16;
    Pow2Add(4, 4);
    assert Pow2(8) == 256;
    Pow2Add(8, 8);
    assert Pow2(16) == 0x1_0000;
    Pow2Add(16, 16);
    assert Pow2(32) == 0x1_0000_0000;
    Pow2Add(32, 32);
  }

  /** Splitting `x < 2^(a+b)` at bit `b`: the high part is below `2^a`, the
      low part below `2^b`, and the two recombine to `x`. */
  lemma SplitBits(x: nat, a: nat, b: nat)
    requires x < Pow2(a + b)
    ensures Shr(x, b) < Pow2(a)
    ensures x % Pow2(b) < Pow2(b)
    ensures x == Shr(x, b) * Pow2(b) + x % Pow2(b)
  {
    Pow2Add(a, b);
    DivBound(x, Pow2(b), Pow2(a));
  }

  lemma MulMonotone(a: nat, b: nat, c: nat)
    requires a <= b
    ensures a * c <= b * c
  {
  }

  lemma MulGe(k: int, n: int)
    requires k >= 1 && n > 0
    ensures k * n >= n
  {
  }

  /** `x < m*d` bounds the quotient `x / d` by `m`. */
  lemma {:induction false} DivBound(x: int, d: int, m: int)
    requires d > 0 && m >= 1 && 0 <= x < m * d
    ensures x / d < m
  {
    if m > 1 && x < (m - 1) * d {
      DivBound(x, d, m - 1);
    } else {
      DivModUnique(x, d, m - 1, x - (m - 1) * d);
    }
  }

  /** Adding a multiple of the modulus does not change a residue. */
  lemma ModAddMultiple(k: int, n: int, z: int)
    requires n > 0
    ensures (k * n + z) % n == z % n
  {
    var q := z / n;
    var r := z % n;
    assert z == q * n + r;
    assert k * n + z == (k + q) * n + r;
    DivModUnique(k * n + z, n, k + q, r);
  }

  lemma DivModUnique(x: int, n: int, q: int, r: int)
    requires n > 0 && 0 <= r < n && x == q * n + r
    ensures x % n == r && x / n == q
  {
    var q' := x / n;
    var r' := x % n;
    assert (q - q') * n == r' - r;
    if q > q' {
      MulGe(q - q', n);
    } else if q < q' {
      MulGe(q' - q, n);
    }
  }

  /** A value already in range is its own residue. */
  lemma ModSmall(x: int, n: int)
    requires 0 <= x < n
    ensures x % n == x
  {
    DivModUnique(x, n, 0, x);
  }

  lemma WrapSmall(x: int)
    requires 0 <= x < W64
    ensures Wrap(x) == x
  {
    ModSmall(x, W64);
  }

  /** Reducing the left factor first does not change a modular product. */
  lemma ModMulLeft(x: int, y: int, n: int)
    requires n > 0
    ensures ((x % n) * y) % n == (x * y) % n
  {
    var q := x / n;
    assert x == q * n + x % n;
    assert x * y == (q * y) * n + (x % n) * y;
    ModAddMultiple(q * y, n, (x % n) * y);
  }
}
