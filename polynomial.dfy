/** Polynomials with integer coefficients, lowest degree first, as the
    coefficient vectors of the repository hold them (index 0 is the constant
    term, i.e. the secret). Evaluation is exact over the integers; the
    share code reduces it modulo the order afterwards. */
module Polynomial {
  import opened ModArith
  import opened Field

  /** c[0] + c[1]*z + c[2]*z^2 + ... */
  function Eval(c: seq<int>, z: int): int
    decreases |c|
  {
    if c == [] then 0 else c[0] + z * Eval(c[1..], z)
  }

  function Pow(z: int, k: nat): int {
    if k == 0 then 1 else Pow(z, k - 1) * z
  }

  /** c[0]*z^0 + ... + c[k-1]*z^(k-1): what a loop that walks the
      coefficients upwards, keeping the running power of z, holds after k
      terms. */
  function SumTerms(c: seq<int>, z: int, k: nat): int
    requires k <= |c|
  {
    if k == 0 then 0 else SumTerms(c, z, k - 1) + c[k - 1] * Pow(z, k - 1)
  }

  lemma {:induction false} EvalAppend(c: seq<int>, a: int, z: int)
    ensures Eval(c + [a], z) == Eval(c, z) + a * Pow(z, |c|)
    decreases |c|
  {
    if c == [] {
      assert Eval([a], z) == a + z * Eval([], z);
    } else {
      assert (c + [a])[1..] == c[1..] + [a];
      EvalAppend(c[1..], a, z);
      assert Pow(z, |c|) == Pow(z, |c| - 1) * z;
      assert Eval(c + [a], z) == c[0] + z * Eval(c[1..] + [a], z);
      AppendStep(c[0], z, Eval(c[1..], z), a, Pow(z, |c| - 1));
    }
  }

  /** The algebra of one step of EvalAppend. */
  lemma AppendStep(c0: int, z: int, rest: int, a: int, pw: int)
    ensures c0 + z * (rest + a * pw) == c0 + z * rest + a * (pw * z)
  {
    assert z * (a * pw) == a * (pw * z);
  }

  /** The ascending-power sum over all k first coefficients is the
      polynomial they form. */
  lemma {:induction false} SumTermsIsEval(c: seq<int>, z: int, k: nat)
    requires k <= |c|
    ensures SumTerms(c, z, k) == Eval(c[..k], z)
  {
    if k == 0 {
      assert c[..0] == [];
    } else {
      SumTermsIsEval(c, z, k - 1);
      assert c[..k] == c[..k - 1] + [c[k - 1]];
      EvalAppend(c[..k - 1], c[k - 1], z);
    }
  }

  /** The value at zero is the constant term. */
  lemma EvalAtZero(c: seq<int>)
    ensures Eval(c, 0) == if c == [] then 0 else c[0]
  {
  }

  /** Coefficient-wise sum; the longer polynomial's extra terms are kept. */
  function Add(p: seq<int>, q: seq<int>): (r: seq<int>)
    ensures |r| == if |p| < |q| then |q| else |p|
    decreases |p|
  {
    if p == [] then q
    else if q == [] then p
    else [p[0] + q[0]] + Add(p[1..], q[1..])
  }

  lemma {:induction false} EvalAdd(p: seq<int>, q: seq<int>, z: int)
    ensures Eval(Add(p, q), z) == Eval(p, z) + Eval(q, z)
    decreases |p|
  {
    if p != [] && q != [] {
      EvalAdd(p[1..], q[1..], z);
      var r := Add(p, q);
      assert r[0] == p[0] + q[0] && r[1..] == Add(p[1..], q[1..]);
      assert Eval(r, z) == p[0] + q[0] + z * (Eval(p[1..], z) + Eval(q[1..], z));
    }
  }

  function Scale(c: int, p: seq<int>): (r: seq<int>)
    ensures |r| == |p|
  {
    seq(|p|, i requires 0 <= i < |p| => c * p[i])
  }

  lemma {:induction false} EvalScale(c: int, p: seq<int>, z: int)
    ensures Eval(Scale(c, p), z) == c * Eval(p, z)
    decreases |p|
  {
    if p != [] {
      EvalScale(c, p[1..], z);
      assert Scale(c, p)[1..] == Scale(c, p[1..]);
      calc {
        Eval(Scale(c, p), z);
        c * p[0] + z * (c * Eval(p[1..], z));
        c * (p[0] + z * Eval(p[1..], z));
      }
    }
  }

  /** p - q. */
  function Sub(p: seq<int>, q: seq<int>): (r: seq<int>)
    ensures |r| == if |p| < |q| then |q| else |p|
  {
    Add(p, Scale(-1, q))
  }

  lemma EvalSub(p: seq<int>, q: seq<int>, z: int)
    ensures Eval(Sub(p, q), z) == Eval(p, z) - Eval(q, z)
  {
    EvalAdd(p, Scale(-1, q), z);
    EvalScale(-1, q, z);
  }

  /** The coefficients of (a - X) * p(X). */
  function MulLinear(p: seq<int>, a: int): (r: seq<int>)
    ensures |r| == |p| + 1
  {
    Add(Scale(a, p), [0] + Scale(-1, p))
  }

  lemma EvalMulLinear(p: seq<int>, a: int, z: int)
    ensures Eval(MulLinear(p, a), z) == (a - z) * Eval(p, z)
  {
    EvalAdd(Scale(a, p), [0] + Scale(-1, p), z);
    EvalScale(a, p, z);
    EvalScale(-1, p, z);
    assert ([0] + Scale(-1, p))[1..] == Scale(-1, p);
  }

  /** Synthetic division by (X - a): the quotient, one coefficient shorter. */
  function Quotient(q: seq<int>, a: int): (d: seq<int>)
    requires |q| >= 1
    ensures |d| == |q| - 1
    decreases |q|
  {
    if |q| == 1 then [] else [Eval(q[1..], a)] + Quotient(q[1..], a)
  }

  /** Factor theorem: q(z) == (z - a) * d(z) + q(a), exactly. */
  lemma {:induction false} QuotientRemainder(q: seq<int>, a: int, z: int)
    requires |q| >= 1
    ensures Eval(q, z) == (z - a) * Eval(Quotient(q, a), z) + Eval(q, a)
    decreases |q|
  {
    if |q| == 1 {
      assert q[1..] == [];
    } else {
      var t := q[1..];
      var d := Quotient(t, a);
      QuotientRemainder(t, a, z);
      var e := Quotient(q, a);
      assert e == [Eval(t, a)] + d && e[1..] == d;
      assert Eval(e, z) == Eval(t, a) + z * Eval(d, z);
      assert Eval(q, z) == q[0] + z * Eval(t, z);
      assert Eval(q, a) == q[0] + a * Eval(t, a);
      FactorStep(q[0], z, a, Eval(t, z), Eval(t, a), Eval(d, z));
    }
  }

  /** The algebra of one step of the factor theorem. */
  lemma FactorStep(q0: int, z: int, a: int, tz: int, ta: int, dz: int)
    requires tz == (z - a) * dz + ta
    ensures q0 + z * tz == (z - a) * (ta + z * dz) + (q0 + a * ta)
  {
    calc {
      q0 + z * tz;
      q0 + z * ((z - a) * dz) + z * ta;
      q0 + (z - a) * (z * dz) + z * ta;
      (z - a) * (z * dz) + (z - a) * ta + (q0 + a * ta);
    }
  }

  /** No two of the points agree modulo m. */
  ghost predicate DistinctMod(xs: seq<int>, m: int)
    requires m > 0
  {
    forall i, j :: 0 <= i < |xs| && 0 <= j < |xs| && i != j ==> xs[i] % m != xs[j] % m
  }

  /** Points that are distinct and reduced are distinct modulo m. */
  lemma DistinctReduced(xs: seq<int>, m: int)
    requires m > 0
    requires forall i :: 0 <= i < |xs| ==> 0 <= xs[i] < m
    requires forall i, j :: 0 <= i < j < |xs| ==> xs[i] != xs[j]
    ensures DistinctMod(xs, m)
  {
    forall i, j | 0 <= i < |xs| && 0 <= j < |xs| && i != j
      ensures xs[i] % m != xs[j] % m
    {
      DivModUnique(xs[i], m, 0, xs[i]);
      DivModUnique(xs[j], m, 0, xs[j]);
    }
  }

  /** A polynomial with at most k coefficients that vanishes modulo a prime
      at k points distinct modulo that prime vanishes modulo it everywhere. */
  lemma {:induction false} VanishesEverywhere(q: seq<int>, xs: seq<int>, p: int, z: int)
    requires IsPrime(p) && DistinctMod(xs, p) && |q| <= |xs|
    requires forall i :: 0 <= i < |xs| ==> Eval(q, xs[i]) % p == 0
    ensures Eval(q, z) % p == 0
    decreases |xs|
  {
    if q != [] {
      var k := |xs|;
      var a := xs[k - 1];
      var d := Quotient(q, a);
      var rest := xs[..k - 1];
      forall i | 0 <= i < |rest|
        ensures Eval(d, rest[i]) % p == 0
      {
        assert rest[i] % p != a % p;
        QuotientVanishes(q, a, rest[i], p);
      }
      VanishesEverywhere(d, rest, p, z);
      QuotientLift(q, a, z, p);
    }
  }

  /** Dividing out a root a keeps every other root modulo a prime. */
  lemma QuotientVanishes(q: seq<int>, a: int, x: int, p: int)
    requires IsPrime(p) && q != [] && x % p != a % p
    requires Eval(q, x) % p == 0 && Eval(q, a) % p == 0
    ensures Eval(Quotient(q, a), x) % p == 0
  {
    var d := Quotient(q, a);
    QuotientRemainder(q, a, x);
    ModEqSub(Eval(q, x), 0, Eval(q, a), 0, p);
    assert (x - a) * Eval(d, x) == Eval(q, x) - Eval(q, a);
    PrimeDividesProduct(x - a, Eval(d, x), p);
    if (x - a) % p == 0 {
      ModEqDiff(x, a, p);
      assert false;
    }
  }

  /** A root a of q, and a root z of q's quotient by (X - a), make z a root
      of q. */
  lemma QuotientLift(q: seq<int>, a: int, z: int, p: int)
    requires p > 0 && q != []
    requires Eval(Quotient(q, a), z) % p == 0 && Eval(q, a) % p == 0
    ensures Eval(q, z) % p == 0
  {
    var d := Quotient(q, a);
    QuotientRemainder(q, a, z);
    ModEqMulZero(Eval(d, z), z - a, p);
    assert Eval(d, z) * (z - a) == (z - a) * Eval(d, z);
    ModEqAdd((z - a) * Eval(d, z), 0, Eval(q, a), 0, p);
  }
}
