/** gen_shares.cpp: evaluating the sharing polynomial and handing out the
    n shares (1, f(1)), ..., (n, f(n)), for the int, unsigned long long and
    BIGNUM widths. The timing and console output are not modelled. */
module GenShares {
  import opened Wrappers
  import opened ModArith
  import opened Field
  import opened Common
  import opened Polynomial
  import GenCoef
  import P256

  // ---------------------------------------------------------------------
  // int

  /** One step of evaluatePolynomial_int, as congruences: the power moves
      from x^k to x^(k+1) and the running value gains coeff * x^(k+1). */
  lemma IntEvalStep(c: seq<int>, x: int, k: nat, y: int, pw: int, mod: int)
    requires mod >= 1 && k + 1 < |c|
    requires ModEq(pw, Pow(x, k), mod) && ModEq(y, SumTerms(c, x, k + 1), mod)
    ensures ModEq((pw * x) % mod, Pow(x, k + 1), mod)
    ensures ModEq((y + c[k + 1] * ((pw * x) % mod)) % mod, SumTerms(c, x, k + 2), mod)
  {
    var pw' := (pw * x) % mod;
    ModEqReduce(pw * x, mod);
    ModEqMul(pw, Pow(x, k), x, x, mod);
    ModEqMul(c[k + 1], c[k + 1], pw', Pow(x, k + 1), mod);
    ModEqAdd(y, SumTerms(c, x, k + 1), c[k + 1] * pw', c[k + 1] * Pow(x, k + 1), mod);
    ModEqReduce(y + c[k + 1] * pw', mod);
  }

  /** Neither product nor sum of one step of evaluatePolynomial_int
      leaves the 32-bit range. */
  lemma IntStepFits(secret: int, coeff: int, x: int, k: nat, y: int, pw: int, mod: int)
    requires 1 <= mod <= IntModulusMax && 0 <= x <= IntModulusMax && 0 <= coeff < mod
    requires 0 <= secret && secret + (mod - 1) * (mod - 1) <= Int32Max
    requires k == 0 ==> y == secret && pw == 1
    requires k > 0 ==> 0 <= y < mod && 0 <= pw < mod
    ensures 0 <= pw * x <= Int32Max
    ensures 0 <= y + coeff * ((pw * x) % mod) <= Int32Max
  {
    MulLe(pw, x, IntModulusMax, IntModulusMax);
    IntSumFits(secret, coeff, (pw * x) % mod, k, y, mod);
  }

  /** The sum of one step, for any reduced power r. */
  lemma IntSumFits(secret: int, coeff: int, r: int, k: nat, y: int, mod: int)
    requires 1 <= mod <= IntModulusMax && 0 <= coeff < mod && 0 <= r < mod
    requires 0 <= secret && secret + (mod - 1) * (mod - 1) <= Int32Max
    requires k == 0 ==> y == secret
    requires k > 0 ==> 0 <= y < mod
    ensures 0 <= y + coeff * r <= Int32Max
  {
    MulLe(coeff, r, mod - 1, mod - 1);
    if k > 0 {
      assert (mod - 1) + (mod - 1) * (mod - 1) == mod * (mod - 1);
      MulLe(mod, mod - 1, IntModulusMax, IntModulusMax);
    }
  }

  /** evaluatePolynomial_int: the secret plus coeff[i] * x^(i+1), reduced
      after every step. The coefficient vector holds no secret, so the
      polynomial evaluated is [secret] + coefficients; with no coefficients
      the secret comes back unreduced. The bounds rule out 32-bit overflow
      and the negative operands for which C++ `%` differs from Dafny's. */
  method EvaluatePolynomialInt(coefficients: seq<int>, secret: int, x: int, mod: int) returns (y: int)
    requires coefficients != [] ==> 1 <= mod <= IntModulusMax && 0 <= x <= IntModulusMax
    requires coefficients != [] ==> 0 <= secret && secret + (mod - 1) * (mod - 1) <= Int32Max
    requires forall i :: 0 <= i < |coefficients| ==> 0 <= coefficients[i] < mod
    ensures coefficients == [] ==> y == secret
    ensures coefficients != [] ==> 0 <= y < mod && y == Eval([secret] + coefficients, x) % mod
  {
    ghost var c := [secret] + coefficients;
    y := secret;
    var powerOfX := 1;
    for k := 0 to |coefficients|
      invariant k == 0 ==> y == secret && powerOfX == 1
      invariant k > 0 ==> 0 <= y < mod && 0 <= powerOfX < mod
      invariant coefficients != [] ==> ModEq(powerOfX, Pow(x, k), mod)
      invariant coefficients != [] ==> ModEq(y, SumTerms(c, x, k + 1), mod)
    {
      var coeff := coefficients[k];
      IntEvalStep(c, x, k, y, powerOfX, mod);
      IntStepFits(secret, coeff, x, k, y, powerOfX, mod);
      powerOfX := (powerOfX * x) % mod;
      y := (y + coeff * powerOfX) % mod;
    }
    if coefficients != [] {
      SumTermsIsEval(c, x, |c|);
      assert c[..|c|] == c;
      DivModUnique(y, mod, 0, y);
    }
  }

  /** generateShares_int: throws when t > n; otherwise draws t - 1
      coefficients (a negative count, t < 1, makes the vector constructor
      throw) and returns the shares (k, f(k)) for k = 1..n. */
  method GenerateSharesInt(secret: int, n: int, t: int, mod: int, draws: seq<int>) returns (r: Result<seq<Share>>)
    requires 1 <= t <= n ==> 2 <= mod <= IntModulusMax && |draws| >= t - 1
    requires 1 <= t <= n ==> forall i :: 0 <= i < |draws| ==> 1 <= draws[i] <= mod - 1
    requires 2 <= t <= n ==> n <= IntModulusMax
    requires 2 <= t <= n ==> 0 <= secret && secret + (mod - 1) * (mod - 1) <= Int32Max
    ensures r == Err(InvalidThreshold) <==> t > n
    ensures r == Err(LengthError) <==> t <= n && t < 1
    ensures r.Ok? <==> 1 <= t <= n
    ensures r.Ok? ==> |r.value| == n
    ensures r.Ok? ==> forall k :: 0 <= k < n ==> r.value[k].x == k + 1
    ensures r.Ok? && t == 1 ==> forall k :: 0 <= k < n ==> r.value[k].y == secret
    ensures r.Ok? && t >= 2 ==> forall k :: 0 <= k < n ==>
      r.value[k].y == Eval([secret] + draws[..t - 1], k + 1) % mod
  {
    if t > n {
      return Err(InvalidThreshold);
    }
    var generated := GenCoef.GenerateCoefficientsInt(t - 1, mod, draws);
    if generated.Err? {
      return Err(generated.error);
    }
    var coefficients := generated.value;
    var shares: seq<Share> := [];
    for i := 1 to n + 1
      invariant |shares| == i - 1
      invariant forall k :: 0 <= k < i - 1 ==> shares[k].x == k + 1
      invariant t == 1 ==> forall k :: 0 <= k < i - 1 ==> shares[k].y == secret
      invariant t >= 2 ==> forall k :: 0 <= k < i - 1 ==>
        shares[k].y == Eval([secret] + draws[..t - 1], k + 1) % mod
    {
      var x := i;
      var y := EvaluatePolynomialInt(coefficients, secret, x, mod);
      shares := shares + [Share(x, y)];
    }
    return Ok(shares);
  }

  // ---------------------------------------------------------------------
  // unsigned long long

  /** The operands for which evaluatePolynomial_long never wraps: an order
      of at most 2^32, a point below it, and every coefficient after the
      constant term reduced (the constant term, the private key, may be
      any 64-bit value: it is only multiplied by 1). */
  predicate LongFits(c: seq<int>, x: int, order: int) {
    order <= 0x1_0000_0000 && 0 <= x < order &&
    forall i :: 1 <= i < |c| ==> 0 <= c[i] < order
  }

  /** The products and sums of one step of evaluatePolynomial_long stay
      below 2^64 when the operands fit. */
  lemma LongStepFits(coeff: int, x: int, k: nat, result: int, xPow: int, order: int)
    requires 1 <= order <= 0x1_0000_0000 && 0 <= x < order && 0 <= coeff < Word64
    requires k > 0 ==> coeff < order
    requires 0 <= result < order && 0 <= xPow && (k > 0 ==> xPow < order) && (k == 0 ==> xPow == 1 && result == 0)
    ensures 0 <= coeff * xPow < Word64 && 0 <= result + coeff * xPow < Word64
    ensures 0 <= xPow * x < Word64
  {
    if k > 0 {
      MulLe(coeff, xPow, 0xFFFF_FFFF, 0xFFFF_FFFF);
      assert 0xFFFF_FFFF * 0xFFFF_FFFF + 0xFFFF_FFFF < Word64;
    }
    MulLe(xPow, x, 0xFFFF_FFFF, 0xFFFF_FFFF);
  }

  /** One step of the power-sum loops, as congruences: adding c[k] * x^k
      and multiplying the power by x. */
  lemma SumStep(c: seq<int>, x: int, k: nat, result: int, xPow: int, order: int)
    requires 1 <= order && k < |c|
    requires ModEq(result, SumTerms(c, x, k), order) && ModEq(xPow, Pow(x, k), order)
    ensures ModEq(result + c[k] * xPow, SumTerms(c, x, k + 1), order)
    ensures ModEq(xPow * x, Pow(x, k + 1), order)
  {
    ModEqMul(c[k], c[k], xPow, Pow(x, k), order);
    ModEqAdd(result, SumTerms(c, x, k), c[k] * xPow, c[k] * Pow(x, k), order);
    ModEqMul(xPow, Pow(x, k), x, x, order);
  }

  /** evaluatePolynomial_long: `(result + coeff * xPow) % order` with every
      operation wrapping modulo 2^64. The result is always below the
      order; when nothing wraps it is the polynomial's value modulo the
      order. */
  method EvaluatePolynomialLong(coefficients: seq<U64>, x: U64, order: U64) returns (result: U64)
    requires order >= 1
    ensures result < order
    ensures LongFits(coefficients, x, order) ==> result == Eval(coefficients, x) % order
  {
    result := 0;
    var xPow: U64 := 1;
    for k := 0 to |coefficients|
      invariant result < order && (k > 0 ==> xPow < order)
      invariant k == 0 ==> xPow == 1 && result == 0
      invariant LongFits(coefficients, x, order) ==>
        ModEq(result, SumTerms(coefficients, x, k), order) && ModEq(xPow, Pow(x, k), order)
    {
      var coeff := coefficients[k];
      ghost var (result0, xPow0) := (result, xPow);
      result := Wrap64(result + Wrap64(coeff * xPow)) % order;
      xPow := Wrap64(xPow * x) % order;
      if LongFits(coefficients, x, order) {
        LongStepFits(coeff, x, k, result0, xPow0, order);
        SumStep(coefficients, x, k, result0, xPow0, order);
        ModEqReduce(result0 + coeff * xPow0, order);
        ModEqReduce(xPow0 * x, order);
      }
    }
    if LongFits(coefficients, x, order) {
      SumTermsIsEval(coefficients, x, |coefficients|);
      assert coefficients[..|coefficients|] == coefficients;
      DivModUnique(result, order, 0, result);
    }
  }

  /** generateShares_long: no check of t against n; the coefficients are
      the private key and t - 1 values rand() % order. Share k holds
      (k, f(k) mod order), exact whenever the arithmetic does not wrap. */
  method GenerateSharesLong(privateKey: U64, n: int, t: int, order: U64, draws: seq<int>) returns (shares: seq<Share>)
    requires order >= 1 && n <= Int32Max
    requires |draws| >= t - 1
    requires forall i :: 0 <= i < |draws| ==> 0 <= draws[i] < Word64
    ensures |shares| == if n < 0 then 0 else n
    ensures forall k :: 0 <= k < |shares| ==> shares[k].x == k + 1 && 0 <= shares[k].y < order
    ensures forall k :: 0 <= k < |shares| && LongFits(GenCoef.LongCoefficients(privateKey, t, order, draws), k + 1, order) ==>
      shares[k].y == Eval(GenCoef.LongCoefficients(privateKey, t, order, draws), k + 1) % order
  {
    var coefficients := GenCoef.GenerateCoefficientsLong(privateKey, t, order, draws);
    shares := [];
    var i := 1;
    while i <= n
      invariant 1 <= i && (i <= n + 1 || i == 1)
      invariant |shares| == i - 1
      invariant forall k :: 0 <= k < |shares| ==> shares[k].x == k + 1 && 0 <= shares[k].y < order
      invariant forall k :: 0 <= k < |shares| && LongFits(coefficients, k + 1, order) ==>
        shares[k].y == Eval(coefficients, k + 1) % order
    {
      var x: U64 := i;
      var y := EvaluatePolynomialLong(coefficients, x, order);
      shares := shares + [Share(x, y)];
      i := i + 1;
    }
  }

  // ---------------------------------------------------------------------
  // BIGNUM

  /** evaluatePolynomial_BIGNUM: the sum of coeff * x^i with every product
      and sum reduced modulo the order (BN_mod_mul, BN_mod_add); the power
      starts at 1 (BN_one) and is reduced from the first product on. */
  method EvaluatePolynomialBignum(coefficients: seq<int>, x: int, order: int) returns (result: int)
    requires order >= 1
    ensures 0 <= result < order
    ensures result == Eval(coefficients, x) % order
  {
    result := 0;
    var xPow := 1;
    for k := 0 to |coefficients|
      invariant 0 <= result < order
      invariant result == SumTerms(coefficients, x, k) % order
      invariant ModEq(xPow, Pow(x, k), order)
    {
      var temp := ModMul(coefficients[k], xPow, order);
      BignumEvalStep(coefficients, x, k, result, xPow, order);
      result := ModAdd(result, temp, order);
      xPow := ModMul(xPow, x, order);
    }
    SumTermsIsEval(coefficients, x, |coefficients|);
    assert coefficients[..|coefficients|] == coefficients;
  }

  /** One step of evaluatePolynomial_BIGNUM keeps the running value at the
      reduced partial sum and the running power congruent to the power. */
  lemma BignumEvalStep(c: seq<int>, x: int, k: nat, acc: int, pw: int, order: int)
    requires order >= 1 && k < |c|
    requires acc == SumTerms(c, x, k) % order && ModEq(pw, Pow(x, k), order)
    ensures ModAdd(acc, ModMul(c[k], pw, order), order) == SumTerms(c, x, k + 1) % order
    ensures ModEq(ModMul(pw, x, order), Pow(x, k + 1), order)
  {
    var temp := ModMul(c[k], pw, order);
    ModEqMul(c[k], c[k], pw, Pow(x, k), order);
    ModEqAdd(acc, SumTerms(c, x, k), temp, c[k] * Pow(x, k), order);
    ModEqMul(pw, Pow(x, k), x, x, order);
  }

  /** generateShares_BIGNUM: the coefficients (secret first, then t - 1
      draws below the field prime), then the shares (k, f(k) mod order)
      for k = 1..n. A failed draw throws. */
  method GenerateSharesBignum(privateKey: int, n: int, t: int, order: int, draws: seq<Option<int>>)
    returns (r: Result<seq<Share>>)
    requires order >= 1 && |draws| >= t - 1
    requires forall i :: 0 <= i < |draws| && draws[i].Some? ==> 0 <= draws[i].value < P256.FieldPrime
    ensures r.Ok? <==> GenCoef.CoefficientsUpTo(privateKey, draws, if t < 1 then 0 else t - 1).Ok?
    ensures r.Err? ==> r.error == RandomFailure
    ensures r.Ok? ==> |r.value| == if n < 0 then 0 else n
    ensures r.Ok? ==> forall k :: 0 <= k < |r.value| ==>
      r.value[k] == Share(k + 1, Eval(GenCoef.CoefficientsUpTo(privateKey, draws, if t < 1 then 0 else t - 1).value, k + 1) % order)
  {
    var generated := GenCoef.GenerateCoefficientsBignum(privateKey, t, draws);
    if generated.Err? {
      return Err(generated.error);
    }
    var coefficients := generated.value;
    var shares: seq<Share> := [];
    var i := 1;
    while i <= n
      invariant 1 <= i && (i <= n + 1 || i == 1)
      invariant |shares| == i - 1
      invariant forall k :: 0 <= k < |shares| ==> shares[k] == Share(k + 1, Eval(coefficients, k + 1) % order)
    {
      var y := EvaluatePolynomialBignum(coefficients, i, order);
      shares := shares + [Share(i, y)];
      i := i + 1;
    }
    return Ok(shares);
  }
}
