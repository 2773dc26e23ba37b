/** The giant-step loop of the baby-step giant-step discrete logarithm
    (dlog_bsgs): probe b, b*a^-m, b*a^-2m, ... against a table of baby steps
    (a^k, k) and answer i*m + k at the first giant step i that hits. */
module DlogBsgs {
  import opened Words
  import opened Wrappers

  /** A baby step: `ak` is a^k mod n. */
  datatype Apow = Apow(k: U64, ak: U64)

  /** The precomputed context: `m` table entries, at most `g` giant steps,
      `am` the giant-step multiplier a^-m, all modulo `n`. */
  datatype Bsgs = Bsgs(table: seq<Apow>, m: U64, g: U64, am: U64, n: U64)

  /** The table holds the `m` entries bsearch is given and the modulus is
      positive. */
  predicate Valid(t: Bsgs)
  {
    t.n >= 1 && |t.table| == t.m
  }

  /** nmod_mul: the product reduced modulo n. */
  function MulMod(x: U64, y: U64, n: U64): U64
    requires n >= 1
  {
    (x * y) % n
  }

  /** The probe value before giant step i, as the loop updates it: after
      the first step a residue, and in closed form b * am^i mod n (for step 0
      this needs b already reduced). */
  function Probe(t: Bsgs, b: U64, i: nat): (r: U64)
    requires t.n >= 1
    ensures i >= 1 ==> r < t.n
    ensures i >= 1 || b < t.n ==> r == (b * Pow(t.am, i)) % t.n
  {
    if i == 0 then
      ReducedIsItself(b, t.n);
      b
    else
      var prev := Probe(t, b, i - 1);
      ProbeStep(b, t.am, t.n, i, prev);
      MulMod(prev, t.am, t.n)
  }

  lemma ReducedIsItself(b: int, n: int)
    requires n >= 1
    ensures 0 <= b < n ==> b % n == b
  {
    if 0 <= b < n {
      ModSmall(b, n);
    }
  }

  /** One giant step moves the closed form from step i - 1 to step i. */
  lemma ProbeStep(b: int, am: int, n: int, i: nat, prev: int)
    requires n >= 1 && i >= 1
    requires i == 1 ==> prev == b
    requires i >= 2 ==> prev == (b * Pow(am, i - 1)) % n
    ensures (prev * am) % n == (b * Pow(am, i)) % n
  {
    if i == 1 {
      assert Pow(am, 1) == am;
    } else {
      var u := b * Pow(am, i - 1);
      ModMulLeft(u, am, n);
      MulAssoc(b, Pow(am, i - 1), am);
    }
  }

  /** Table search: some entry carries the probe of step i. */
  predicate Hit(t: Bsgs, b: U64, i: nat)
    requires t.n >= 1
  {
    exists idx :: 0 <= idx < |t.table| && t.table[idx].ak == Probe(t, b, i)
  }

  function Pow(x: int, i: nat): int
  {
    if i == 0 then 1 else Pow(x, i - 1) * x
  }

  lemma MulAssoc(x: int, y: int, z: int)
    ensures x * y * z == x * (y * z)
  {
  }

  /** dlog_bsgs: at most g giant steps; the first step whose probe is found
      in the table answers step*m + k in `ulong` arithmetic, with whichever
      matching entry the search returns; no hit throws, here None. */
  method Dlog(t: Bsgs, b: U64) returns (r: Option<U64>, ghost step: nat, ghost entry: nat)
    requires Valid(t)
    ensures r.None? <==> forall i :: 0 <= i < t.g ==> !Hit(t, b, i)
    ensures r.Some? ==>
      && step < t.g
      && (forall i :: 0 <= i < step ==> !Hit(t, b, i))
      && entry < |t.table|
      && t.table[entry].ak == Probe(t, b, step)
      && r.value == Answer(step, t.m, t.table[entry].k)
    ensures t.g > 0 && Hit(t, b, 0) ==>
      r.Some? && step == 0 && t.table[entry].ak == b && r.value == t.table[entry].k
    ensures r.Some? && t.g * t.m <= W64 && t.table[entry].k < t.m ==>
      r.value == step * t.m + t.table[entry].k
  {
    var c: U64 := b;
    var i: nat := 0;
    while i < t.g
      invariant i <= t.g
      invariant c == Probe(t, b, i)
      invariant forall i' :: 0 <= i' < i ==> !Hit(t, b, i')
    {
      if exists idx :: 0 <= idx < |t.table| && t.table[idx].ak == c {
        var idx :| 0 <= idx < |t.table| && t.table[idx].ak == c;
        assert Hit(t, b, i);
        var k := t.table[idx].k;
        if t.g * t.m <= W64 && k < t.m {
          NoWrapIndex(i, t.m, t.g, k);
        }
        AnswerAtZero(t.m, k);
        return Some(Answer(i, t.m, k)), i, idx;
      }
      c := MulMod(c, t.am, t.n);
      i := i + 1;
    }
    return None, 0, 0;
  }

  /** The answer `i * t->m + x->k` in `ulong` arithmetic. */
  function Answer(i: nat, m: U64, k: U64): U64
  {
    Wrap(i * m + k)
  }

  lemma AnswerAtZero(m: U64, k: U64)
    ensures Answer(0, m, k) == k
  {
  }

  /** i*m + k stays below 2^64 when i < g, k < m and g*m <= 2^64. */
  lemma NoWrapIndex(i: nat, m: U64, g: nat, k: U64)
    requires i < g && k < m && g * m <= W64
    ensures 0 <= i * m + k < W64
    ensures Answer(i, m, k) == i * m + k
  {
    assert (i + 1) * m <= g * m by {
      MulMonotone(i + 1, g, m);
    }
  }
}
