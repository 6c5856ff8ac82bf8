/** Congruences and machine-word arithmetic used throughout the model.
    Dafny's `%` is Euclidean: for a positive modulus the remainder lies in
    [0, m), which is exactly what OpenSSL's BN_mod_* and BN_nnmod return. */
module ModArith {

  /** Largest value of a 32-bit C++ `int`. */
  const Int32Max: int := 0x7fff_ffff
  /** The largest value whose square fits a 32-bit `int`: with a modulus
      at most this, products of two reduced values cannot overflow. */
  const IntModulusMax: int := 46340
  /** 2^64: `unsigned long long` arithmetic wraps modulo this. */
  const Word64: int := 0x1_0000_0000_0000_0000

  type U64 = v: int | 0 <= v < Word64

  /** The value an `unsigned long long` holds after an assignment of `v`. */
  function Wrap64(v: int): (r: U64)
    ensures 0 <= v < Word64 ==> r == v
  {
    if 0 <= v < Word64 then DivModUnique(v, Word64, 0, v); v % Word64 else v % Word64
  }

  /** The wrapped value is congruent to the exact one modulo 2^64. */
  lemma Wrap64Congruent(v: int)
    ensures ModEq(Wrap64(v), v, Word64)
  {
    ModOfMod(v, Word64);
  }

  function Abs(v: int): (r: nat)
    ensures r == v || r == -v
  {
    if v < 0 then -v else v
  }

  /** Congruence modulo m. */
  predicate ModEq(a: int, b: int, m: int)
    requires m > 0
  {
    a % m == b % m
  }

  lemma DivModUnique(a: int, m: int, q: int, r: int)
    requires m > 0 && 0 <= r < m && a == q * m + r
    ensures a / m == q && a % m == r
  {
    var q0, r0 := a / m, a % m;
    assert a == q0 * m + r0;
    assert (q - q0) * m == r0 - r;
    if q > q0 {
      MulAtLeast(q - q0, m);
      assert false;
    } else if q < q0 {
      assert (q0 - q) * m == r - r0;
      MulAtLeast(q0 - q, m);
      assert false;
    }
  }

  lemma MulAtLeast(d: int, m: int)
    requires d >= 1 && m >= 0
    ensures d * m >= m
  {
    assert d * m == (d - 1) * m + m;
    assert (d - 1) * m >= 0;
  }

  lemma ModOfMod(a: int, m: int)
    requires m > 0
    ensures (a % m) % m == a % m
  {
    DivModUnique(a % m, m, 0, a % m);
  }

  lemma AddMultiple(a: int, k: int, m: int)
    requires m > 0
    ensures (a + k * m) % m == a % m
  {
    var q := a / m;
    assert a + k * m == (q + k) * m + a % m;
    DivModUnique(a + k * m, m, q + k, a % m);
  }

  /** Congruence is divisibility of the difference. */
  lemma ModEqDiff(a: int, b: int, m: int)
    requires m > 0
    ensures ModEq(a, b, m) <==> (a - b) % m == 0
  {
    if ModEq(a, b, m) {
      assert a - b == (a / m - b / m) * m;
      DivModUnique(a - b, m, a / m - b / m, 0);
    }
    if (a - b) % m == 0 {
      var k := (a - b) / m;
      assert a == b + k * m;
      AddMultiple(b, k, m);
    }
  }

  /** A congruence gives the multiple of m that separates its sides. */
  lemma ModEqWitness(a: int, b: int, m: int) returns (k: int)
    requires m > 0 && ModEq(a, b, m)
    ensures a == b + k * m
  {
    k := a / m - b / m;
    assert a == (a / m) * m + a % m;
    assert b == (b / m) * m + b % m;
  }

  lemma ModEqAdd(a: int, a': int, b: int, b': int, m: int)
    requires m > 0 && ModEq(a, a', m) && ModEq(b, b', m)
    ensures ModEq(a + b, a' + b', m)
  {
    var ka := ModEqWitness(a, a', m);
    var kb := ModEqWitness(b, b', m);
    assert a + b == (a' + b') + (ka + kb) * m;
    AddMultiple(a' + b', ka + kb, m);
  }

  lemma ModEqSub(a: int, a': int, b: int, b': int, m: int)
    requires m > 0 && ModEq(a, a', m) && ModEq(b, b', m)
    ensures ModEq(a - b, a' - b', m)
  {
    var ka := ModEqWitness(a, a', m);
    var kb := ModEqWitness(b, b', m);
    assert a - b == (a' - b') + (ka - kb) * m;
    AddMultiple(a' - b', ka - kb, m);
  }

  lemma ModEqMul(a: int, a': int, b: int, b': int, m: int)
    requires m > 0 && ModEq(a, a', m) && ModEq(b, b', m)
    ensures ModEq(a * b, a' * b', m)
  {
    var ka := ModEqWitness(a, a', m);
    var kb := ModEqWitness(b, b', m);
    calc {
      a * b;
      (a' + ka * m) * (b' + kb * m);
      a' * b' + (a' * kb + ka * b' + ka * kb * m) * m;
    }
    AddMultiple(a' * b', a' * kb + ka * b' + ka * kb * m, m);
  }

  /** Reducing an operand before a product or sum does not change the
      result modulo m. */
  lemma ModEqReduce(a: int, m: int)
    requires m > 0
    ensures ModEq(a % m, a, m)
  {
    ModOfMod(a, m);
  }

  /** A multiple of m is never congruent to 1 when m >= 2. */
  lemma MultipleNotOne(a: int, x: int, m: int)
    requires m >= 2 && x % m == 0
    ensures !ModEq(a * x, 1, m)
  {
    ModEqMulZero(x, a, m);
    assert x * a == a * x;
  }

  /** A product in which one factor is congruent to zero is too. */
  lemma ModEqMulZero(a: int, b: int, m: int)
    requires m > 0 && a % m == 0
    ensures (a * b) % m == 0
  {
    ModEqMul(a, 0, b, b, m);
  }

  /** Two reduced residues that are congruent are equal. */
  lemma ReducedUnique(a: int, b: int, m: int)
    requires m > 0 && 0 <= a < m && 0 <= b < m && ModEq(a, b, m)
    ensures a == b
  {
    DivModUnique(a, m, 0, a);
    DivModUnique(b, m, 0, b);
  }

  /** Products of bounded non-negative factors stay bounded. */
  lemma MulLe(a: int, b: int, c: int, d: int)
    requires 0 <= a <= c && 0 <= b <= d
    ensures a * b <= c * d
  {
    assert a * b <= c * b;
    assert c * b <= c * d;
  }
}
