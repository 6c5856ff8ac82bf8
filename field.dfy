/** Arithmetic in the prime field the shares live in: the BN_mod_add,
    BN_mod_sub, BN_mod_mul and BN_mod_inverse primitives, and the
    extended Euclidean loop that recon_key.cpp runs by hand. */
module Field {
  import opened ModArith
  import opened Wrappers

  ghost predicate IsPrime(p: int) {
    p >= 2 && forall d :: 1 < d < p ==> p % d != 0
  }

  function Gcd(a: nat, b: nat): nat
    decreases b
  {
    if b == 0 then a else Gcd(b, a % b)
  }

  lemma {:induction false} GcdDivides(a: nat, b: nat)
    requires a > 0 || b > 0
    ensures Gcd(a, b) > 0 && a % Gcd(a, b) == 0 && b % Gcd(a, b) == 0
    decreases b
  {
    if b == 0 {
      assert Gcd(a, b) == a;
    } else {
      var g := Gcd(b, a % b);
      GcdDivides(b, a % b);
      assert Gcd(a, b) == g;
      assert a == (a / b) * b + a % b;
      ModEqMul(a / b, a / b, b, 0, g);
      ModEqAdd((a / b) * b, 0, a % b, 0, g);
    }
  }

  lemma GcdWithOne(a: nat)
    ensures Gcd(a, 1) == 1
  {
    assert Gcd(a, 1) == Gcd(1, 0);
  }

  /** Every residue other than zero is coprime to a prime modulus. */
  lemma PrimeCoprime(a: nat, p: nat)
    requires IsPrime(p) && 0 < a < p
    ensures Gcd(a, p) == 1
  {
    var g := Gcd(a, p);
    GcdDivides(a, p);
    if g > a {
      DivModUnique(a, g, 0, a);
    }
  }

  /** The state of the `while (a > 1)` loop of modInverse_int and
      modInverse_long, run to completion: the Bezout coefficient left in x1,
      or ZeroDivisor when the loop would evaluate `a / mod` with mod == 0. */
  datatype Euclid = Coefficient(x: int) | ZeroDivisor

  function ExtendedEuclid(a: nat, mod: nat, x0: int, x1: int): Euclid
    decreases mod
  {
    if a <= 1 then Coefficient(x1)
    else if mod == 0 then ZeroDivisor
    else ExtendedEuclid(mod, a % mod, x1 - (a / mod) * x0, x0)
  }

  /** The loop finishes without dividing by zero exactly when its operands
      are coprime (or a is already 0 or 1). */
  lemma {:induction false} EuclidDefined(a: nat, mod: nat, x0: int, x1: int)
    ensures ExtendedEuclid(a, mod, x0, x1).Coefficient? <==> (a <= 1 || Gcd(a, mod) == 1)
    decreases mod
  {
    if a > 1 && mod > 0 {
      EuclidDefined(mod, a % mod, x1 - (a / mod) * x0, x0);
      if mod == 1 {
        GcdWithOne(a);
      }
    }
  }

  /** x1 * a0 == a and x0 * a0 == mod modulo m0 hold on entry and are kept
      by every iteration; when the loop stops at a == 1, x1 inverts a0. */
  lemma {:induction false} EuclidBezout(a0: int, m0: int, a: nat, mod: nat, x0: int, x1: int)
    requires m0 > 0
    requires ModEq(x1 * a0, a, m0) && ModEq(x0 * a0, mod, m0)
    ensures ExtendedEuclid(a, mod, x0, x1).Coefficient? && a >= 1 ==>
              ModEq(ExtendedEuclid(a, mod, x0, x1).x * a0, 1, m0)
    decreases mod
  {
    if a > 1 && mod > 0 {
      var q := a / mod;
      assert a % mod == a - q * mod;
      assert (x1 - q * x0) * a0 == x1 * a0 - q * (x0 * a0);
      ModEqMul(q, q, x0 * a0, mod, m0);
      ModEqSub(x1 * a0, a, q * (x0 * a0), q * mod, m0);
      EuclidBezout(a0, m0, mod, a % mod, x1 - q * x0, x0);
    }
  }

  /** Size invariant of the Bezout coefficients: they have opposite signs
      and |x1| * mod + |x0| * a == m0, so neither ever exceeds m0. */
  ghost predicate EuclidBounded(a: nat, mod: nat, x0: int, x1: int, m0: int) {
    && Abs(x1) * mod + Abs(x0) * a == m0
    && ((x0 <= 0 <= x1) || (x1 <= 0 <= x0))
    && Abs(x1) <= m0
  }

  lemma EuclidStepBounded(a: nat, mod: nat, x0: int, x1: int, m0: int)
    requires a > 1 && mod > 0 && EuclidBounded(a, mod, x0, x1, m0)
    ensures Abs(x1 - (a / mod) * x0) == Abs(x1) + (a / mod) * Abs(x0)
    ensures Abs(x1 - (a / mod) * x0) <= m0 && Abs(x0) <= m0
    ensures EuclidBounded(mod, a % mod, x1 - (a / mod) * x0, x0, m0)
  {
    StepBounded(a, mod, a / mod, a % mod, x0, x1, m0);
  }

  /** The same step with the quotient and remainder named. */
  lemma StepBounded(a: nat, mod: nat, q: int, r: int, x0: int, x1: int, m0: int)
    requires a > 1 && mod > 0 && a == q * mod + r && 0 <= r < mod && q >= 0
    requires EuclidBounded(a, mod, x0, x1, m0)
    ensures Abs(x1 - q * x0) == Abs(x1) + q * Abs(x0)
    ensures Abs(x1 - q * x0) <= m0 && Abs(x0) <= m0
    ensures EuclidBounded(mod, r, x1 - q * x0, x0, m0)
  {
    var n := StepSign(x0, x1, q);
    StepIdentity(Abs(x0), Abs(x1), q, mod, r);
    MulAtLeast(a, Abs(x0));
    MulAtLeast(mod, n);
  }

  /** x1 - q * x0 with x0, x1 of opposite signs and q >= 0 moves away from
      zero: its size is |x1| + q * |x0| and its sign is opposite to x0's. */
  lemma StepSign(x0: int, x1: int, q: int) returns (n: nat)
    requires q >= 0 && ((x0 <= 0 <= x1) || (x1 <= 0 <= x0))
    ensures n == Abs(x1) + q * Abs(x0) && n == Abs(x1 - q * x0)
    ensures (x1 - q * x0 <= 0 <= x0) || (x0 <= 0 <= x1 - q * x0)
  {
    if x0 <= 0 <= x1 {
      assert q * x0 == -(q * Abs(x0));
    } else {
      assert q * x0 == q * Abs(x0);
    }
    n := Abs(x1) + q * Abs(x0);
  }

  lemma StepIdentity(a0: int, a1: int, q: int, mod: int, r: int)
    ensures a0 * r + (a1 + q * a0) * mod == a1 * mod + a0 * (q * mod + r)
  {
  }

  lemma {:induction false} EuclidBound(a: nat, mod: nat, x0: int, x1: int, m0: int)
    requires EuclidBounded(a, mod, x0, x1, m0)
    ensures ExtendedEuclid(a, mod, x0, x1).Coefficient? ==> Abs(ExtendedEuclid(a, mod, x0, x1).x) <= m0
    decreases mod
  {
    if a > 1 && mod > 0 {
      EuclidStepBounded(a, mod, x0, x1, m0);
      EuclidBound(mod, a % mod, x1 - (a / mod) * x0, x0, m0);
    }
  }

  /** What modInverse_int returns (recon_key.cpp:3-30): 0 for modulus 1,
      otherwise the final x1 with a negative value moved up by m0. */
  function EuclidInverse(a: nat, mod: nat): (r: Euclid)
    requires mod >= 1
    ensures mod == 1 ==> r == Coefficient(0)
    ensures mod >= 2 ==> (r.Coefficient? <==> a == 0 || Gcd(a, mod) == 1)
    ensures mod >= 2 && a == 0 ==> r == Coefficient(1)
    ensures mod >= 2 && a >= 1 && r.Coefficient? ==> 0 < r.x < mod && ModEq(a * r.x, 1, mod)
  {
    if mod == 1 then Coefficient(0)
    else
      EuclidSolves(a, mod);
      match ExtendedEuclid(a, mod, 0, 1)
      case Coefficient(x) =>
        ShiftByModulus(a, x, mod);
        Coefficient(if x < 0 then x + mod else x)
      case ZeroDivisor => ZeroDivisor
  }

  /** The loop run from (a, mod, 0, 1) for a modulus of at least 2: it
      divides by zero exactly when gcd(a, mod) > 1 (and a > 1); otherwise its
      coefficient lies strictly between -mod and mod and, for a > 0, inverts
      a. */
  lemma EuclidSolves(a: nat, mod: nat)
    requires mod >= 2
    ensures ExtendedEuclid(a, mod, 0, 1).Coefficient? <==> a == 0 || Gcd(a, mod) == 1
    ensures a == 0 ==> ExtendedEuclid(a, mod, 0, 1) == Coefficient(1)
    ensures a >= 1 && ExtendedEuclid(a, mod, 0, 1).Coefficient? ==>
              var x := ExtendedEuclid(a, mod, 0, 1).x;
              x + mod > 0 && x < mod && x != 0 && ModEq(a * x, 1, mod)
  {
    EuclidDefined(a, mod, 0, 1);
    if a == 1 {
      assert 1 % mod == 1;
      assert Gcd(1, mod) == Gcd(mod, 1);
      GcdWithOne(mod);
    }
    if a == 0 {
      assert Gcd(0, mod) == Gcd(mod, 0) == mod;
    }
    if a >= 1 && ExtendedEuclid(a, mod, 0, 1).Coefficient? {
      EuclidCoefficient(a, mod);
    }
  }

  lemma EuclidCoefficient(a: nat, mod: nat)
    requires mod >= 2 && a >= 1 && ExtendedEuclid(a, mod, 0, 1).Coefficient?
    ensures var x := ExtendedEuclid(a, mod, 0, 1).x;
            x + mod > 0 && x < mod && x != 0 && ModEq(a * x, 1, mod)
  {
    ModOfMod(a, mod);
    assert ModEq(1 * a, a, mod) && ModEq(0 * a, mod, mod);
    EuclidBezout(a, mod, a, mod, 0, 1);
    assert EuclidBounded(a, mod, 0, 1, mod);
    EuclidBound(a, mod, 0, 1, mod);
    var x := ExtendedEuclid(a, mod, 0, 1).x;
    if x == mod {
      DivModUnique(x, mod, 1, 0);
      MultipleNotOne(a, x, mod);
    } else if x + mod == 0 {
      DivModUnique(x, mod, -1, 0);
      MultipleNotOne(a, x, mod);
    } else if x == 0 {
      MultipleNotOne(a, x, mod);
    }
  }

  /** Adding the modulus to a coefficient does not change what it multiplies to. */
  lemma ShiftByModulus(a: int, x: int, m: int)
    requires m > 0
    ensures ModEq(a * (x + m), a * x, m)
  {
    assert a * (x + m) == a * x + a * m;
    AddMultiple(a * x, a, m);
  }

  /** Models BN_add then BN_nnmod: BN_mod_add. */
  function ModAdd(a: int, b: int, m: int): (r: int)
    requires m > 0
    ensures 0 <= r < m && ModEq(r, a + b, m)
  {
    ModOfMod(a + b, m);
    (a + b) % m
  }

  /** BN_mod_sub: zero exactly when the operands are congruent. */
  function ModSub(a: int, b: int, m: int): (r: int)
    requires m > 0
    ensures 0 <= r < m && ModEq(r, a - b, m)
    ensures r == 0 <==> ModEq(a, b, m)
  {
    ModOfMod(a - b, m);
    ModEqDiff(a, b, m);
    (a - b) % m
  }

  /** BN_mod_mul. */
  function ModMul(a: int, b: int, m: int): (r: int)
    requires m > 0
    ensures 0 <= r < m && ModEq(r, a * b, m)
  {
    ModOfMod(a * b, m);
    (a * b) % m
  }

  /** BN_mod_inverse: the inverse of a modulo m, in [1, m), or failure when
      gcd(a, m) != 1 (in particular for a == 0 mod m, and for m == 1). */
  function ModInverse(a: int, m: int): (r: Option<int>)
    requires m >= 1
    ensures r.Some? <==> a % m != 0 && Gcd(a % m, m) == 1
    ensures r.Some? ==> 0 < r.value < m && ModEq(a * r.value, 1, m)
  {
    if a % m == 0 then None
    else
      EuclidSolves(a % m, m);
      match ExtendedEuclid(a % m, m, 0, 1)
      case ZeroDivisor => None
      case Coefficient(x) =>
        ModEqReduce(a, m);
        ModEqMul(a % m, a, x, x, m);
        ShiftByModulus(a, x, m);
        Some(if x < 0 then x + m else x)
  }

  /** Under a prime modulus every non-zero residue has an inverse. */
  lemma PrimeInverse(a: int, p: int)
    requires IsPrime(p)
    ensures ModInverse(a, p).Some? <==> a % p != 0
  {
    if a % p != 0 {
      PrimeCoprime(a % p, p);
    }
  }

  /** Two inverses of the same residue coincide. */
  lemma InverseUnique(a: int, u: int, v: int, m: int)
    requires m > 0 && 0 <= u < m && 0 <= v < m
    requires ModEq(a * u, 1, m) && ModEq(a * v, 1, m)
    ensures u == v
  {
    var w := u * (a * v);
    assert w == v * (a * u) by { Commute3(u, a, v); }
    ModEqMul(u, u, a * v, 1, m);
    ModEqMul(v, v, a * u, 1, m);
    assert ModEq(u * 1, v * 1, m);
    ReducedUnique(u, v, m);
  }

  lemma Commute3(u: int, a: int, v: int)
    ensures u * (a * v) == v * (a * u)
  {
  }

  /** Euclid's lemma: a prime dividing a product divides one factor. */
  lemma PrimeDividesProduct(a: int, b: int, p: int)
    requires IsPrime(p) && (a * b) % p == 0
    ensures a % p == 0 || b % p == 0
  {
    if a % p != 0 {
      PrimeInverse(a, p);
      InverseCancels(a, ModInverse(a, p).value, b, p);
    }
  }

  /** Multiplying by an inverse of a cancels a from a * b. */
  lemma InverseCancels(a: int, u: int, b: int, p: int)
    requires p > 0 && ModEq(a * u, 1, p) && (a * b) % p == 0
    ensures b % p == 0
  {
    assert u * a == a * u;
    ModEqMul(u * a, 1, b, b, p);
    assert u * (a * b) == (u * a) * b;
    ModEqMul(u, u, a * b, 0, p);
  }

  /** No d with 1 < d < k divides n: trial division, evaluated on literals. */
  predicate NoDivisorBelow(n: int, k: int)
    decreases k
  {
    k <= 2 || (n % (k - 1) != 0 && NoDivisorBelow(n, k - 1))
  }

  lemma {:induction false} NoDivisorBelowSound(n: int, k: int)
    requires NoDivisorBelow(n, k)
    ensures forall d :: 1 < d < k ==> n % d != 0
    decreases k
  {
    if k > 2 {
      NoDivisorBelowSound(n, k - 1);
    }
  }

  /** Trial division up to the square root decides primality: a divisor
      d of n with 1 < d < n has a cofactor n / d > 1, and the smaller of
      the two is below any k with k * k > n. */
  lemma PrimeByTrialDivision(n: int, k: int)
    requires n >= 2 && k >= 2 && k * k > n && NoDivisorBelow(n, k)
    ensures IsPrime(n)
  {
    NoDivisorBelowSound(n, k);
    forall d | 1 < d < n
      ensures n % d != 0
    {
      if n % d == 0 {
        var e := n / d;
        assert n == e * d;
        if e <= 1 {
          MulLe(e, d, 1, d);
          assert false;
        }
        DivModUnique(n, e, d, 0);
        if d >= k && e >= k {
          MulLe(k, k, e, d);
          assert false;
        }
      }
    }
  }
}
