/** recon_key.cpp: the extended-Euclid inverses and the three Lagrange
    reconstructions (int, unsigned long long, BIGNUM). */
module ReconKey {
  import opened Wrappers
  import opened ModArith
  import opened Field
  import opened Common
  import opened Polynomial
  import opened Lagrange

  /** modInverse_int: the Euclidean loop on 32-bit ints. Only non-negative
      arguments are modelled, which is what reconstruction passes. A
      modulus sharing a factor with `value` makes the loop divide by zero. */
  method ModInverseInt(value: int, modulus: int) returns (r: Result<int>)
    requires 0 <= value <= Int32Max && 1 <= modulus <= Int32Max
    ensures r.Ok? <==> EuclidInverse(value, modulus).Coefficient?
    ensures r.Ok? ==> r.value == EuclidInverse(value, modulus).x
    ensures r.Err? ==> r.error == DivisionByZero
  {
    var m0 := modulus;
    var a, mod := value, modulus;
    var x0, x1 := 0, 1;
    if mod == 1 {
      return Ok(0);
    }
    while a > 1
      invariant 0 <= a <= Int32Max && 0 <= mod <= Int32Max
      invariant ExtendedEuclid(a, mod, x0, x1) == ExtendedEuclid(value, modulus, 0, 1)
      invariant EuclidBounded(a, mod, x0, x1, m0)
      decreases mod
    {
      if mod == 0 {
        return Err(DivisionByZero);
      }
      var q := a / mod;
      EuclidStepBounded(a, mod, x0, x1, m0);
      var t := mod;
      mod := a % mod;
      a := t;
      t := x0;
      // |q * x0| and |x1 - q * x0| stay below m0: no int overflow
      assert -Int32Max <= x1 - q * x0 <= Int32Max;
      x0 := x1 - q * x0;
      x1 := t;
    }
    assert ExtendedEuclid(value, modulus, 0, 1) == Coefficient(x1);
    if x1 < 0 {
      x1 := x1 + m0;
    }
    return Ok(x1);
  }

  /** The inner loop of reconstructKey_BIGNUM: the Lagrange coefficient
      of share i, or the error of the first denominator that is zero or
      has no inverse. */
  method BignumLambda(shares: seq<Share>, i: nat, order: int) returns (r: Result<int>)
    requires i < |shares| && order >= 1
    ensures r == WeightUpTo(shares, i, |shares|, order)
  {
    var weight := 1;
    var j := 0;
    while j < |shares|
      invariant 0 <= j <= |shares|
      invariant WeightUpTo(shares, i, j, order) == Ok(weight)
    {
      if i != j {
        var denom := ModSub(shares[j].x, shares[i].x, order);
        if denom == 0 {
          WeightErrorSticks(shares, i, j + 1, |shares|, order);
          return Err(DuplicateX);
        }
        var inv := ModInverse(denom, order);
        if inv.None? {
          WeightErrorSticks(shares, i, j + 1, |shares|, order);
          return Err(NoInverse);
        }
        var temp := ModMul(shares[j].x, inv.value, order);
        weight := ModMul(weight, temp, order);
      }
      j := j + 1;
    }
    return Ok(weight);
  }

  /** reconstructKey_BIGNUM (and the identical loop of reconstructKeyPair):
      Lagrange interpolation at zero modulo the group order, computed with
      BN_mod_sub / BN_mod_inverse / BN_mod_mul / BN_mod_add. */
  method ReconstructKeyBignum(shares: seq<Share>, order: int) returns (r: Result<int>)
    requires order >= 1
    ensures r == LagrangeAtZero(shares, order)
    ensures r.Ok? ==> 0 <= r.value < order
    ensures |shares| < 2 ==> r == Err(TooFewShares)
  {
    if |shares| < 2 {
      return Err(TooFewShares);
    }
    var secret := 0;
    var i := 0;
    while i < |shares|
      invariant 0 <= i <= |shares|
      invariant SumUpTo(shares, i, order) == Ok(secret)
    {
      var weight := BignumLambda(shares, i, order);
      if weight.Err? {
        SumErrorSticks(shares, i + 1, |shares|, order);
        return weight;
      }
      SumUnfold(shares, i, order, secret, weight.value);
      var term := ModMul(weight.value, shares[i].y, order);
      secret := ModAdd(secret, term, order);
      i := i + 1;
    }
    return Ok(secret);
  }

  // ---------------------------------------------------------------------
  // reconstructKey_int

  /** Coordinates reduced modulo `mod`: what reconstructKey_int needs to
      avoid overflow and a negative `%` operand. */
  ghost predicate ReducedShares(s: seq<Share>, mod: int) {
    forall i :: 0 <= i < |s| ==> 0 <= s[i].x < mod && 0 <= s[i].y < mod
  }

  /** `(xj - xi + mod) % mod`: for reduced coordinates this is the
      difference modulo `mod`, whichever of the two is larger. */
  function IntDenominator(xj: int, xi: int, mod: int): (r: int)
    requires 0 <= xj < mod && 0 <= xi < mod
    ensures r == ModSub(xj, xi, mod)
  {
    AddMultiple(xj - xi, 1, mod);
    (xj - xi + mod) % mod
  }

  /** The weight li that reconstructKey_int accumulates for share i after
      the inner loop has visited shares 0..k-1. */
  function IntWeightUpTo(s: seq<Share>, i: nat, k: nat, mod: int): (r: Result<int>)
    requires i < |s| && k <= |s| && mod >= 1 && ReducedShares(s, mod)
    ensures r.Ok? ==> 0 <= r.value <= mod
  {
    if k == 0 then Ok(1)
    else
      match IntWeightUpTo(s, i, k - 1, mod)
      case Err(e) => Err(e)
      case Ok(li) =>
        if k - 1 == i then Ok(li)
        else
          match EuclidInverse(IntDenominator(s[k - 1].x, s[i].x, mod), mod)
          case ZeroDivisor => Err(DivisionByZero)
          case Coefficient(inv) =>
            if inv == 0 then Err(NoInverse)
            else Ok((li * s[k - 1].x % mod * inv % mod) % mod)
  }

  /** The secret reconstructKey_int holds after the outer loop has handled
      shares 0..k-1. */
  function IntSumUpTo(s: seq<Share>, k: nat, mod: int): Result<int>
    requires k <= |s| && mod >= 1 && ReducedShares(s, mod)
  {
    if k == 0 then Ok(0)
    else
      match IntSumUpTo(s, k - 1, mod)
      case Err(e) => Err(e)
      case Ok(secret) =>
        match IntWeightUpTo(s, k - 1, |s|, mod)
        case Err(e) => Err(e)
        case Ok(li) => Ok((secret + s[k - 1].y * li % mod) % mod)
  }

  lemma {:induction false} IntWeightErrorSticks(s: seq<Share>, i: nat, k: nat, k': nat, mod: int)
    requires i < |s| && k <= k' <= |s| && mod >= 1 && ReducedShares(s, mod)
    requires IntWeightUpTo(s, i, k, mod).Err?
    ensures IntWeightUpTo(s, i, k', mod) == IntWeightUpTo(s, i, k, mod)
  {
    if k' > k {
      IntWeightErrorSticks(s, i, k, k' - 1, mod);
    }
  }

  lemma {:induction false} IntSumErrorSticks(s: seq<Share>, k: nat, k': nat, mod: int)
    requires k <= k' <= |s| && mod >= 1 && ReducedShares(s, mod) && IntSumUpTo(s, k, mod).Err?
    ensures IntSumUpTo(s, k', mod) == IntSumUpTo(s, k, mod)
  {
    if k' > k {
      IntSumErrorSticks(s, k, k' - 1, mod);
    }
  }

  /** The inner loop of reconstructKey_int: the weight li of share i. */
  method IntLambda(shares: seq<Share>, i: nat, mod: int) returns (r: Result<int>)
    requires i < |shares| && 1 <= mod <= IntModulusMax && ReducedShares(shares, mod)
    ensures r == IntWeightUpTo(shares, i, |shares|, mod)
  {
    var xi := shares[i].x;
    var li := 1;
    for j := 0 to |shares|
      invariant IntWeightUpTo(shares, i, j, mod) == Ok(li)
    {
      if i != j {
        var xj := shares[j].x;
        var numerator := xj;
        var denominator := (xj - xi + mod) % mod;
        var denomInv := ModInverseInt(denominator, mod);
        if denomInv.Err? {
          IntWeightErrorSticks(shares, i, j + 1, |shares|, mod);
          return Err(DivisionByZero);
        }
        if denomInv.value == 0 {
          IntWeightErrorSticks(shares, i, j + 1, |shares|, mod);
          return Err(NoInverse);
        }
        IntLambdaFits(li, numerator, denomInv.value, mod);
        li := (li * numerator % mod * denomInv.value % mod) % mod;
      }
    }
    return Ok(li);
  }

  /** With a modulus of at most 46340 neither product of the li update
      leaves the 32-bit range. */
  lemma IntLambdaFits(li: int, x: int, inv: int, mod: int)
    requires 1 <= mod <= IntModulusMax && 0 <= li <= mod && 0 <= x < mod && 0 <= inv <= mod
    ensures 0 <= li * x <= Int32Max
    ensures 0 <= li * x % mod * inv <= Int32Max
  {
    MulLe(mod, mod, IntModulusMax, IntModulusMax);
    MulLe(li, x, mod, mod);
    MulLe(li * x % mod, inv, mod, mod);
  }

  /** reconstructKey_int. There is no check on the number of shares. The
      `denomInv == 0` test only fires for modulus 1, since the inverse of a
      zero denominator comes back as 1. */
  method ReconstructKeyInt(shares: seq<Share>, mod: int) returns (r: Result<int>)
    requires 1 <= mod <= IntModulusMax && ReducedShares(shares, mod)
    ensures r == IntSumUpTo(shares, |shares|, mod)
  {
    var secret := 0;
    for i := 0 to |shares|
      invariant IntSumUpTo(shares, i, mod) == Ok(secret)
    {
      var yi := shares[i].y;
      var li := IntLambda(shares, i, mod);
      if li.Err? {
        IntSumErrorSticks(shares, i + 1, |shares|, mod);
        return li;
      }
      IntLambdaFits(li.value, yi, 1, mod);
      secret := (secret + yi * li.value % mod) % mod;
    }
    return Ok(secret);
  }

  /** Reducing after each of the two multiplications, as the int and long
      loops do, gives the residue the BIGNUM loop computes. */
  lemma ChainedProduct(l: int, x: int, v: int, m: int)
    requires m >= 1
    ensures (l * x % m * v % m) % m == ModMul(l, ModMul(x, v, m), m)
  {
    var t := l * x % m * v;
    ModOfMod(t, m);
    ModEqReduce(l * x, m);
    ModEqMul(l * x % m, l * x, v, v, m);
    ModEqMul(l, l, ModMul(x, v, m), x * v, m);
    assert (l * x) * v == l * (x * v);
    ReducedUnique((t % m) % m, ModMul(l, ModMul(x, v, m), m), m);
  }

  /** With x distinct modulo a prime, reconstructKey_int's weights are the
      BIGNUM weights. */
  lemma {:induction false} IntWeightAgrees(s: seq<Share>, i: nat, k: nat, mod: int)
    requires IsPrime(mod) && i < |s| && k <= |s| && ReducedShares(s, mod) && DistinctMod(Xs(s), mod)
    ensures IntWeightUpTo(s, i, k, mod) == WeightUpTo(s, i, k, mod)
  {
    if k > 0 {
      IntWeightAgrees(s, i, k - 1, mod);
      if k - 1 != i && WeightUpTo(s, i, k - 1, mod).Ok? {
        var xj, xi := s[k - 1].x, s[i].x;
        var d := ModSub(xj, xi, mod);
        assert Xs(s)[k - 1] % mod != Xs(s)[i] % mod;
        DivModUnique(d, mod, 0, d);
        PrimeCoprime(d, mod);
        PrimeInverse(d, mod);
        var inv := ModInverse(d, mod).value;
        InverseUnique(d, EuclidInverse(d, mod).x, inv, mod);
        ChainedProduct(WeightUpTo(s, i, k - 1, mod).value, xj, inv, mod);
      }
    }
  }

  /** With x distinct modulo a prime, reconstructKey_int computes the
      BIGNUM Lagrange sum. */
  lemma {:induction false} IntSumAgrees(s: seq<Share>, k: nat, mod: int)
    requires IsPrime(mod) && k <= |s| && ReducedShares(s, mod) && DistinctMod(Xs(s), mod)
    ensures IntSumUpTo(s, k, mod) == SumUpTo(s, k, mod)
  {
    if k > 0 {
      IntSumAgrees(s, k - 1, mod);
      IntWeightAgrees(s, k - 1, |s|, mod);
      IntSumAgreeStep(s, k - 1, mod);
    }
  }

  /** One outer iteration keeps the int and BIGNUM sums equal. */
  lemma IntSumAgreeStep(s: seq<Share>, i: nat, mod: int)
    requires i < |s| && mod >= 1 && ReducedShares(s, mod)
    requires IntSumUpTo(s, i, mod) == SumUpTo(s, i, mod)
    requires IntWeightUpTo(s, i, |s|, mod) == WeightUpTo(s, i, |s|, mod)
    ensures IntSumUpTo(s, i + 1, mod) == SumUpTo(s, i + 1, mod)
  {
    match SumUpTo(s, i, mod)
    case Err(e) =>
      assert SumUpTo(s, i + 1, mod) == Err(e);
      assert IntSumUpTo(s, i + 1, mod) == Err(e);
    case Ok(acc) =>
      match WeightUpTo(s, i, |s|, mod)
      case Err(e) =>
        assert SumUpTo(s, i + 1, mod) == Err(e);
        assert IntSumUpTo(s, i + 1, mod) == Err(e);
      case Ok(li) =>
        IntSumAgreeOk(s, i, mod, acc, li);
  }

  /** One outer iteration of reconstructKey_int is the BIGNUM update. */
  lemma IntSumAgreeOk(s: seq<Share>, i: nat, mod: int, acc: int, li: int)
    requires i < |s| && mod >= 1 && ReducedShares(s, mod)
    requires IntSumUpTo(s, i, mod) == Ok(acc) && SumUpTo(s, i, mod) == Ok(acc)
    requires IntWeightUpTo(s, i, |s|, mod) == Ok(li) && WeightUpTo(s, i, |s|, mod) == Ok(li)
    ensures IntSumUpTo(s, i + 1, mod) == SumUpTo(s, i + 1, mod)
  {
    SumUnfold(s, i, mod, acc, li);
    IntSumUnfold(s, i, mod, acc, li);
    assert s[i].y * li == li * s[i].y;
  }

  /** One iteration of reconstructKey_int's outer loop. */
  lemma IntSumUnfold(s: seq<Share>, i: nat, mod: int, acc: int, li: int)
    requires i < |s| && mod >= 1 && ReducedShares(s, mod)
    requires IntSumUpTo(s, i, mod) == Ok(acc)
    requires IntWeightUpTo(s, i, |s|, mod) == Ok(li)
    ensures IntSumUpTo(s, i + 1, mod) == Ok((acc + s[i].y * li % mod) % mod)
  {
  }

  /** The round trip for reconstructKey_int: at least two shares with x
      distinct modulo a prime, from a polynomial with at most as many
      coefficients as shares, give back its constant term. */
  lemma ReconstructIntRecoversSecret(s: seq<Share>, coeffs: seq<int>, mod: int)
    requires IsPrime(mod) && ReducedShares(s, mod) && |s| >= 2 && DistinctMod(Xs(s), mod)
    requires |coeffs| <= |s|
    requires forall i :: 0 <= i < |s| ==> ModEq(s[i].y, Eval(coeffs, s[i].x), mod)
    ensures IntSumUpTo(s, |s|, mod) == Ok((if coeffs == [] then 0 else coeffs[0]) % mod)
  {
    IntSumAgrees(s, |s|, mod);
    LagrangeRecoversSecret(s, coeffs, mod);
  }

  /** For any modulus above 1 the `denomInv == 0` error of
      reconstructKey_int is unreachable: a zero denominator (a duplicate x)
      is "inverted" to 1. */
  lemma {:induction false} IntNoInverseUnreachable(s: seq<Share>, i: nat, k: nat, mod: int)
    requires 2 <= mod && i < |s| && k <= |s| && ReducedShares(s, mod)
    ensures IntWeightUpTo(s, i, k, mod) != Err(NoInverse)
  {
    if k > 0 {
      IntNoInverseUnreachable(s, i, k - 1, mod);
    }
  }

  /** reconstructKey_int has no minimum on the number of shares: no share
      gives 0 and a single share gives its own y, where the other two
      variants refuse. */
  lemma IntAcceptsFewShares(x: int, y: int, mod: int)
    requires 1 <= mod && 0 <= x < mod && 0 <= y < mod
    ensures IntSumUpTo([], 0, mod) == Ok(0)
    ensures IntSumUpTo([Share(x, y)], 1, mod) == Ok(y)
    ensures LagrangeAtZero([Share(x, y)], mod) == Err(TooFewShares)
  {
    var s := [Share(x, y)];
    assert IntWeightUpTo(s, 0, 1, mod) == Ok(1);
    DivModUnique(y, mod, 0, y);
  }

  /** Two copies of the share (1, 5) modulo 7: reconstructKey_int returns
      3 where the BIGNUM reconstruction reports the duplicate. */
  lemma IntMissesDuplicate()
    ensures IntSumUpTo([Share(1, 5), Share(1, 5)], 2, 7) == Ok(3)
    ensures LagrangeAtZero([Share(1, 5), Share(1, 5)], 7) == Err(DuplicateX)
  {
    var s := [Share(1, 5), Share(1, 5)];
    assert EuclidInverse(0, 7) == Coefficient(1);
    assert IntWeightUpTo(s, 0, 2, 7) == Ok(1);
    assert IntWeightUpTo(s, 1, 2, 7) == Ok(1);
    assert WeightUpTo(s, 0, 2, 7) == Err(DuplicateX);
  }

  // ---------------------------------------------------------------------
  // modInverse_long and reconstructKey_long: unsigned 64-bit arithmetic

  /** 2^63: an unsigned value at or above it is negative when read as a
      signed 64-bit integer. */
  const SignBit: int := 0x8000_0000_0000_0000

  /** x1 - q * x0 evaluated in unsigned 64-bit arithmetic follows the exact
      Bezout coefficients modulo 2^64. */
  lemma WrapStep(x0: int, x1: int, e0: int, e1: int, q: int)
    requires x0 == Wrap64(e0) && x1 == Wrap64(e1)
    ensures Wrap64(x1 - Wrap64(q * x0)) == Wrap64(e1 - q * e0)
  {
    ModEqMul(q, q, x0, e0, Word64);
    ModEqSub(x1, e1, Wrap64(q * x0), q * e0, Word64);
  }

  /** The `while (a > 1)` loop of modInverse_long: the coefficient it
      leaves in x1 is the exact Bezout coefficient wrapped modulo 2^64. */
  method EuclidLoopLong(value: U64, modulus: U64) returns (r: Result<int>)
    ensures r.Ok? <==> ExtendedEuclid(value, modulus, 0, 1).Coefficient?
    ensures r.Ok? ==> r.value == Wrap64(ExtendedEuclid(value, modulus, 0, 1).x)
    ensures r.Err? ==> r.error == DivisionByZero
  {
    var a: U64, mod: U64 := value, modulus;
    var x0: U64, x1: U64 := 0, 1;
    ghost var e0, e1 := 0, 1;
    while a > 1
      invariant ExtendedEuclid(a, mod, e0, e1) == ExtendedEuclid(value, modulus, 0, 1)
      invariant x0 == Wrap64(e0) && x1 == Wrap64(e1)
      decreases mod
    {
      if mod == 0 {
        return Err(DivisionByZero);
      }
      var q := a / mod;
      var t := mod;
      mod := a % mod;
      a := t;
      t := x0;
      WrapStep(x0, x1, e0, e1, q);
      x0 := Wrap64(x1 - Wrap64(q * x0));
      x1 := t;
      e0, e1 := e1 - q * e0, e0;
    }
    return Ok(x1);
  }

  /** What modInverse_long returns. As written (signedFix false) the final
      `x1 < 0` test is on an unsigned value and never fires, so a negative
      coefficient is returned wrapped. With signedFix the test reads x1 as
      a signed 64-bit value. */
  function LongInverse(a: U64, mod: U64, signedFix: bool): (r: Result<int>)
    ensures r.Ok? ==> 0 <= r.value < Word64
  {
    if mod == 1 then Ok(0)
    else
      match ExtendedEuclid(a, mod, 0, 1)
      case ZeroDivisor => Err(DivisionByZero)
      case Coefficient(x) =>
        var w := Wrap64(x);
        Ok(if signedFix && w >= SignBit then Wrap64(w + mod) else w)
  }

  /** modInverse_long as written. */
  method ModInverseLong(value: U64, modulus: U64) returns (r: Result<int>)
    ensures r == LongInverse(value, modulus, false)
  {
    if modulus == 1 {
      return Ok(0);
    }
    r := EuclidLoopLong(value, modulus);
    if r.Ok? {
      var x1 := r.value;
      if x1 < 0 {
        x1 := Wrap64(x1 + modulus);
      }
      r := Ok(x1);
    }
  }

  /** modInverse_long with the normalisation the code evidently intends:
      a coefficient that is negative as a signed value is moved up by the
      modulus. */
  method ModInverseLongFixed(value: U64, modulus: U64) returns (r: Result<int>)
    ensures r == LongInverse(value, modulus, true)
  {
    if modulus == 1 {
      return Ok(0);
    }
    r := EuclidLoopLong(value, modulus);
    if r.Ok? {
      var x1 := r.value;
      if x1 >= SignBit {
        x1 := Wrap64(x1 + modulus);
      }
      r := Ok(x1);
    }
  }

  /** With the signed reading, modInverse_long returns what modInverse_int
      returns, hence an inverse in (0, mod) of every a coprime to mod. */
  lemma LongInverseFixedCorrect(a: U64, mod: U64)
    requires 2 <= mod < SignBit
    ensures LongInverse(a, mod, true).Ok? <==> EuclidInverse(a, mod).Coefficient?
    ensures LongInverse(a, mod, true).Ok? ==> LongInverse(a, mod, true).value == EuclidInverse(a, mod).x
  {
    EuclidSolves(a, mod);
    if a >= 1 && ExtendedEuclid(a, mod, 0, 1).Coefficient? {
      var x := ExtendedEuclid(a, mod, 0, 1).x;
      if x < 0 {
        AddMultiple(x, 1, Word64);
        DivModUnique(x + Word64, Word64, 0, x + Word64);
        DivModUnique(x + Word64 + mod, Word64, 1, x + mod);
      } else {
        DivModUnique(x, Word64, 0, x);
      }
    }
  }

  /** As written, modInverse_long returns the inverse only when the Bezout
      coefficient is non-negative. A negative coefficient x comes back as
      2^64 + x, which is at least 2^63, so it is not below mod and is not
      the inverse: it sits 2^64 - mod above the inverse modInverse_int gives. */
  lemma LongInverseAsWritten(a: U64, mod: U64)
    requires 2 <= mod < SignBit && a >= 1 && EuclidInverse(a, mod).Coefficient?
    ensures LongInverse(a, mod, false).Ok?
    ensures ExtendedEuclid(a, mod, 0, 1).x >= 0 ==>
              LongInverse(a, mod, false).value == EuclidInverse(a, mod).x
    ensures ExtendedEuclid(a, mod, 0, 1).x < 0 ==>
              LongInverse(a, mod, false).value >= SignBit &&
              LongInverse(a, mod, false).value == EuclidInverse(a, mod).x + Word64 - mod
  {
    EuclidSolves(a, mod);
    var x := ExtendedEuclid(a, mod, 0, 1).x;
    if x < 0 {
      DivModUnique(x, Word64, -1, x + Word64);
    } else {
      DivModUnique(x, Word64, 0, x);
    }
  }

  /** As written, a negative Bezout coefficient comes back as 2^64 minus its
      size: for 2 modulo 5 the loop ends with -2, and the result is not an
      inverse of 2 modulo 5. */
  lemma LongInverseWraps()
    ensures LongInverse(2, 5, false) == Ok(Word64 - 2)
    ensures !ModEq(2 * (Word64 - 2), 1, 5)
    ensures LongInverse(2, 5, true) == Ok(3)
  {
    assert ExtendedEuclid(2, 5, 0, 1) == Coefficient(-2) by {
      assert ExtendedEuclid(2, 5, 0, 1) == ExtendedEuclid(5, 2, 1, 0);
      assert ExtendedEuclid(5, 2, 1, 0) == ExtendedEuclid(2, 1, -2, 1);
      assert ExtendedEuclid(2, 1, -2, 1) == ExtendedEuclid(1, 0, 5, -2);
    }
    DivModUnique(-2, Word64, -1, Word64 - 2);
    DivModUnique(Word64 - 2 + 5, Word64, 1, 3);
  }

  /** Coordinates that fit an `unsigned long long`. */
  ghost predicate LongShares(s: seq<Share>) {
    forall i :: 0 <= i < |s| ==> 0 <= s[i].x < Word64 && 0 <= s[i].y < Word64
  }

  /** `(x_j >= x_i ? x_j - x_i : order + x_j - x_i) % order` in unsigned
      arithmetic: the difference modulo the order whenever both x are below
      it, including when x_j < x_i. */
  function LongDenominator(xj: U64, xi: U64, order: int): (r: U64)
    requires 1 <= order < Word64
    ensures xj < order && xi < order ==> r == ModSub(xj, xi, order)
  {
    AddMultiple(xj - xi, 1, order);
    (if xj >= xi then xj - xi else Wrap64(order + xj - xi)) % order
  }

  /** The weight reconstructKey_long accumulates for share i after the
      inner loop has visited shares 0..k-1. */
  function LongWeightUpTo(s: seq<Share>, i: nat, k: nat, order: int, signedFix: bool): Result<int>
    requires i < |s| && k <= |s| && 1 <= order < Word64 && LongShares(s)
  {
    if k == 0 then Ok(1)
    else
      match LongWeightUpTo(s, i, k - 1, order, signedFix)
      case Err(e) => Err(e)
      case Ok(weight) =>
        if k - 1 == i then Ok(weight)
        else
          var xj := s[k - 1].x;
          match LongInverse(LongDenominator(xj, s[i].x, order), order, signedFix)
          case Err(e) => Err(e)
          case Ok(inv) =>
            if inv == 0 then Err(NoInverse)
            else Ok(Wrap64(Wrap64(weight * xj) % order * inv) % order % order)
  }

  /** The secret reconstructKey_long holds after the outer loop has
      handled shares 0..k-1. */
  function LongSumUpTo(s: seq<Share>, k: nat, order: int, signedFix: bool): Result<int>
    requires k <= |s| && 1 <= order < Word64 && LongShares(s)
  {
    if k == 0 then Ok(0)
    else
      match LongSumUpTo(s, k - 1, order, signedFix)
      case Err(e) => Err(e)
      case Ok(secret) =>
        match LongWeightUpTo(s, k - 1, |s|, order, signedFix)
        case Err(e) => Err(e)
        case Ok(weight) => Ok(Wrap64(secret + Wrap64(weight * s[k - 1].y) % order) % order)
  }

  /** reconstructKey_long, with the inverse as written or with the signed
      reading of its final test. */
  function LongReconstruct(s: seq<Share>, order: int, signedFix: bool): (r: Result<int>)
    requires 1 <= order < Word64 && LongShares(s)
    ensures |s| < 2 ==> r == Err(TooFewShares)
  {
    if |s| < 2 then Err(TooFewShares) else LongSumUpTo(s, |s|, order, signedFix)
  }

  lemma {:induction false} LongWeightErrorSticks(s: seq<Share>, i: nat, k: nat, k': nat, order: int, signedFix: bool)
    requires i < |s| && k <= k' <= |s| && 1 <= order < Word64 && LongShares(s)
    requires LongWeightUpTo(s, i, k, order, signedFix).Err?
    ensures LongWeightUpTo(s, i, k', order, signedFix) == LongWeightUpTo(s, i, k, order, signedFix)
  {
    if k' > k {
      LongWeightErrorSticks(s, i, k, k' - 1, order, signedFix);
    }
  }

  lemma {:induction false} LongSumErrorSticks(s: seq<Share>, k: nat, k': nat, order: int, signedFix: bool)
    requires k <= k' <= |s| && 1 <= order < Word64 && LongShares(s)
    requires LongSumUpTo(s, k, order, signedFix).Err?
    ensures LongSumUpTo(s, k', order, signedFix) == LongSumUpTo(s, k, order, signedFix)
  {
    if k' > k {
      LongSumErrorSticks(s, k, k' - 1, order, signedFix);
    }
  }

  /** The inner loop of reconstructKey_long: the Lagrange coefficient
      weight of share i. */
  method LongLambda(shares: seq<Share>, i: nat, order: int) returns (r: Result<int>)
    requires i < |shares| && 1 <= order < Word64 && LongShares(shares)
    ensures r == LongWeightUpTo(shares, i, |shares|, order, false)
  {
    var xi: U64 := shares[i].x;
    var weight: U64 := 1;
    for j := 0 to |shares|
      invariant LongWeightUpTo(shares, i, j, order, false) == Ok(weight)
    {
      if i != j {
        var xj: U64 := shares[j].x;
        var denom: U64 := (if xj >= xi then xj - xi else Wrap64(order + xj - xi)) % order;
        var denomInv := ModInverseLong(denom, order);
        if denomInv.Err? || denomInv.value == 0 {
          LongWeightErrorSticks(shares, i, j + 1, |shares|, order, false);
          return if denomInv.Err? then denomInv else Err(NoInverse);
        }
        weight := Wrap64(Wrap64(weight * xj) % order * denomInv.value) % order % order;
      }
    }
    return Ok(weight);
  }

  /** reconstructKey_long as written. */
  method ReconstructKeyLong(shares: seq<Share>, order: int) returns (r: Result<int>)
    requires 1 <= order < Word64 && LongShares(shares)
    ensures r == LongReconstruct(shares, order, false)
  {
    if |shares| < 2 {
      return Err(TooFewShares);
    }
    var secret: U64 := 0;
    for i := 0 to |shares|
      invariant LongSumUpTo(shares, i, order, false) == Ok(secret)
    {
      var yi: U64 := shares[i].y;
      var weight := LongLambda(shares, i, order);
      if weight.Err? {
        LongSumErrorSticks(shares, i + 1, |shares|, order, false);
        return weight;
      }
      LongSumUnfold(shares, i, order, false, secret, weight.value);
      secret := Wrap64(secret + Wrap64(weight.value * yi) % order) % order;
    }
    return Ok(secret);
  }

  /** One iteration of reconstructKey_long's outer loop. */
  lemma LongSumUnfold(s: seq<Share>, i: nat, order: int, signedFix: bool, secret: int, weight: int)
    requires i < |s| && 1 <= order < Word64 && LongShares(s)
    requires LongSumUpTo(s, i, order, signedFix) == Ok(secret)
    requires LongWeightUpTo(s, i, |s|, order, signedFix) == Ok(weight)
    ensures LongSumUpTo(s, i + 1, order, signedFix) == Ok(Wrap64(secret + Wrap64(weight * s[i].y) % order) % order)
  {
  }

  /** Below 2^32 the order's square fits 64 bits, so no product of two
      reduced values wraps. */
  lemma ReducedProductFits(a: int, b: int, order: int)
    requires 1 <= order <= 0x1_0000_0000 && 0 <= a < order && 0 <= b < order
    ensures Wrap64(a * b) == a * b
  {
    MulLe(a, b, order, order);
    MulLe(order, order, 0x1_0000_0000, 0x1_0000_0000);
  }

  /** One update of weight, without wrap-around, is the BIGNUM update. */
  lemma LongLambdaStep(weight: int, xj: int, inv: int, order: int)
    requires 1 <= order <= 0x1_0000_0000
    requires 0 <= weight < order && 0 <= xj < order && 0 <= inv < order
    ensures Wrap64(Wrap64(weight * xj) % order * inv) % order % order
            == ModMul(weight, ModMul(xj, inv, order), order)
  {
    ReducedProductFits(weight, xj, order);
    ReducedProductFits(weight * xj % order, inv, order);
    ChainedProduct(weight, xj, inv, order);
  }

  /** One update of the secret, without wrap-around, is the BIGNUM update. */
  lemma LongSecretStep(secret: int, weight: int, y: int, order: int)
    requires 1 <= order <= 0x1_0000_0000
    requires 0 <= secret < order && 0 <= weight < order && 0 <= y < order
    ensures Wrap64(secret + Wrap64(weight * y) % order) % order
            == ModAdd(secret, ModMul(weight, y, order), order)
  {
    ReducedProductFits(weight, y, order);
  }

  /** Modulo a prime below 2^32 the signed reading of modInverse_long
      inverts every non-zero residue as BN_mod_inverse does. */
  lemma LongInverseIsModInverse(d: int, order: int)
    requires IsPrime(order) && order <= 0x1_0000_0000 && 0 < d < order
    ensures ModInverse(d, order).Some?
    ensures LongInverse(d, order, true) == Ok(ModInverse(d, order).value)
  {
    DivModUnique(d, order, 0, d);
    PrimeCoprime(d, order);
    PrimeInverse(d, order);
    LongInverseFixedCorrect(d, order);
    InverseUnique(d, EuclidInverse(d, order).x, ModInverse(d, order).value, order);
  }

  /** For a prime order below 2^32 and shares reduced modulo it with
      distinct x, reconstructKey_long with the signed reading of
      modInverse_long computes the BIGNUM Lagrange weights. */
  lemma {:induction false} LongFixedWeightAgrees(s: seq<Share>, i: nat, k: nat, order: int)
    requires IsPrime(order) && order <= 0x1_0000_0000 && i < |s| && k <= |s|
    requires ReducedShares(s, order) && DistinctMod(Xs(s), order)
    ensures LongWeightUpTo(s, i, k, order, true) == WeightUpTo(s, i, k, order)
  {
    if k > 0 {
      LongFixedWeightAgrees(s, i, k - 1, order);
      if k - 1 != i && WeightUpTo(s, i, k - 1, order).Ok? {
        var xj, xi := s[k - 1].x, s[i].x;
        var d := ModSub(xj, xi, order);
        assert Xs(s)[k - 1] % order != Xs(s)[i] % order;
        LongInverseIsModInverse(d, order);
        LongLambdaStep(WeightUpTo(s, i, k - 1, order).value, xj, ModInverse(d, order).value, order);
      }
    }
  }

  lemma LongFixedSumAgrees(s: seq<Share>, k: nat, order: int)
    requires IsPrime(order) && order <= 0x1_0000_0000 && k <= |s|
    requires ReducedShares(s, order) && DistinctMod(Xs(s), order)
    ensures LongSumUpTo(s, k, order, true) == SumUpTo(s, k, order)
  {
    forall i | 0 <= i < k
      ensures LongWeightUpTo(s, i, |s|, order, true) == WeightUpTo(s, i, |s|, order)
    {
      LongFixedWeightAgrees(s, i, |s|, order);
    }
    LongSumFromWeights(s, k, order);
  }

  /** Where the weights of the first k shares agree, so do the sums. */
  lemma {:induction false} LongSumFromWeights(s: seq<Share>, k: nat, order: int)
    requires 2 <= order <= 0x1_0000_0000 && k <= |s| && ReducedShares(s, order)
    requires forall i :: 0 <= i < k ==> LongWeightUpTo(s, i, |s|, order, true) == WeightUpTo(s, i, |s|, order)
    ensures LongSumUpTo(s, k, order, true) == SumUpTo(s, k, order)
  {
    if k > 0 {
      LongSumFromWeights(s, k - 1, order);
      LongSumAgreeStep(s, k - 1, order);
    }
  }

  /** One outer iteration keeps the two sums equal. */
  lemma LongSumAgreeStep(s: seq<Share>, i: nat, order: int)
    requires 2 <= order <= 0x1_0000_0000 && i < |s| && ReducedShares(s, order)
    requires LongSumUpTo(s, i, order, true) == SumUpTo(s, i, order)
    requires LongWeightUpTo(s, i, |s|, order, true) == WeightUpTo(s, i, |s|, order)
    ensures LongSumUpTo(s, i + 1, order, true) == SumUpTo(s, i + 1, order)
  {
    match SumUpTo(s, i, order)
    case Err(e) =>
      assert SumUpTo(s, i + 1, order) == Err(e);
      assert LongSumUpTo(s, i + 1, order, true) == Err(e);
    case Ok(acc) =>
      match WeightUpTo(s, i, |s|, order)
      case Err(e) =>
        assert SumUpTo(s, i + 1, order) == Err(e);
        assert LongSumUpTo(s, i + 1, order, true) == Err(e);
      case Ok(l) =>
        LongSumAgreeOk(s, i, order, acc, l);
  }

  lemma LongSumAgreeOk(s: seq<Share>, i: nat, order: int, acc: int, l: int)
    requires 2 <= order <= 0x1_0000_0000 && i < |s| && ReducedShares(s, order)
    requires LongSumUpTo(s, i, order, true) == Ok(acc) && SumUpTo(s, i, order) == Ok(acc)
    requires LongWeightUpTo(s, i, |s|, order, true) == Ok(l) && WeightUpTo(s, i, |s|, order) == Ok(l)
    ensures LongSumUpTo(s, i + 1, order, true) == SumUpTo(s, i + 1, order)
  {
    LongSumStepReduced(s, i, order, acc, l);
    SumUnfold(s, i, order, acc, l);
  }

  /** With reduced operands, one long outer iteration is the BIGNUM update. */
  lemma LongSumStepReduced(s: seq<Share>, i: nat, order: int, acc: int, l: int)
    requires 2 <= order <= 0x1_0000_0000 && i < |s| && ReducedShares(s, order)
    requires 0 <= acc < order && 0 <= l < order
    requires LongSumUpTo(s, i, order, true) == Ok(acc)
    requires LongWeightUpTo(s, i, |s|, order, true) == Ok(l)
    ensures LongSumUpTo(s, i + 1, order, true) == Ok(ModAdd(acc, ModMul(l, s[i].y, order), order))
  {
    LongSumUnfold(s, i, order, true, acc, l);
    LongSecretStep(acc, l, s[i].y, order);
  }

  /** The round trip for reconstructKey_long once modInverse_long reads its
      coefficient as signed: for a prime order below 2^32 and shares
      reduced modulo it, it is the BIGNUM reconstruction, which returns the
      constant term of the sharing polynomial. */
  lemma LongFixedRecoversSecret(s: seq<Share>, coeffs: seq<int>, order: int)
    requires IsPrime(order) && order <= 0x1_0000_0000 && ReducedShares(s, order)
    requires DistinctMod(Xs(s), order) && |s| >= 2 && |coeffs| <= |s|
    requires forall i :: 0 <= i < |s| ==> ModEq(s[i].y, Eval(coeffs, s[i].x), order)
    ensures LongReconstruct(s, order, true) == LagrangeAtZero(s, order)
    ensures LongReconstruct(s, order, true) == Ok((if coeffs == [] then 0 else coeffs[0]) % order)
  {
    LongFixedSumAgrees(s, |s|, order);
    LagrangeRecoversSecret(s, coeffs, order);
  }

  /** 6 modulo 7: the loop ends with the coefficient -1. */
  lemma InverseOfSixModSeven()
    ensures LongInverse(6, 7, false) == Ok(Word64 - 1)
    ensures LongInverse(6, 7, true) == Ok(6)
    ensures ModInverse(6, 7) == Some(6)
  {
    assert ExtendedEuclid(6, 7, 0, 1) == Coefficient(-1) by {
      assert ExtendedEuclid(6, 7, 0, 1) == ExtendedEuclid(7, 6, 1, 0);
      assert ExtendedEuclid(7, 6, 1, 0) == ExtendedEuclid(6, 1, -1, 1);
      assert ExtendedEuclid(6, 1, -1, 1) == ExtendedEuclid(1, 0, 7, -1);
    }
    DivModUnique(-1, Word64, -1, Word64 - 1);
    DivModUnique(Word64 - 1 + 7, Word64, 1, 6);
  }

  /** Shares (1, 4) and (2, 5) of f(x) = 3 + x modulo 7: reconstructKey_long
      as written returns 6, because the inverse of 6 comes back as 2^64 - 1;
      the BIGNUM reconstruction and the signed reading return 3. */
  lemma LongReconstructWrong()
    ensures LongReconstruct([Share(1, 4), Share(2, 5)], 7, false) == Ok(6)
    ensures LongReconstruct([Share(1, 4), Share(2, 5)], 7, true) == Ok(3)
    ensures LagrangeAtZero([Share(1, 4), Share(2, 5)], 7) == Ok(3)
  {
    var s := [Share(1, 4), Share(2, 5)];
    InverseOfSixModSeven();
    assert LongDenominator(1, 2, 7) == 6;
    assert LongWeightUpTo(s, 0, 2, 7, false) == Ok(2) by {
      assert ExtendedEuclid(1, 7, 0, 1) == Coefficient(1);
    }
    assert LongWeightUpTo(s, 0, 2, 7, true) == Ok(2) by {
      assert ExtendedEuclid(1, 7, 0, 1) == Coefficient(1);
    }
    assert LongWeightUpTo(s, 1, 2, 7, false) == Ok(1) by {
      assert (Word64 - 1) % 7 == 1;
    }
    assert LongWeightUpTo(s, 1, 2, 7, true) == Ok(6);
    assert WeightUpTo(s, 0, 2, 7) == Ok(2) by {
      assert ModInverse(1, 7) == Some(1);
    }
    assert WeightUpTo(s, 1, 2, 7) == Ok(6);
  }

  /** As written, modInverse_long never returns 0 for a modulus above 1:
      a zero argument skips the loop and gives 1, and any other coefficient
      is non-zero and smaller in size than the modulus, so wrapping it
      modulo 2^64 cannot give 0 either. */
  lemma LongInverseNonZero(a: U64, mod: U64)
    requires 2 <= mod
    ensures LongInverse(a, mod, false).Ok? ==> LongInverse(a, mod, false).value != 0
  {
    EuclidSolves(a, mod);
    if ExtendedEuclid(a, mod, 0, 1).Coefficient? {
      var x := ExtendedEuclid(a, mod, 0, 1).x;
      if x < 0 {
        DivModUnique(x, Word64, -1, x + Word64);
      } else {
        DivModUnique(x, Word64, 0, x);
      }
    }
  }

  /** For any order above 1 the `denomInv == 0` error of
      reconstructKey_long is unreachable: as in the int variant, a zero
      denominator (a duplicate x) is "inverted" to 1. */
  lemma {:induction false} LongNoInverseUnreachable(s: seq<Share>, i: nat, k: nat, order: int)
    requires 2 <= order < Word64 && i < |s| && k <= |s| && LongShares(s)
    ensures LongWeightUpTo(s, i, k, order, false) != Err(NoInverse)
  {
    if k > 0 {
      LongNoInverseUnreachable(s, i, k - 1, order);
      if k - 1 != i {
        LongInverseNonZero(LongDenominator(s[k - 1].x, s[i].x, order), order);
      }
    }
  }

  /** Two copies of the share (1, 5) modulo 7: reconstructKey_long returns
      3 where the BIGNUM reconstruction reports the duplicate. */
  lemma LongMissesDuplicate()
    ensures LongReconstruct([Share(1, 5), Share(1, 5)], 7, false) == Ok(3)
    ensures LagrangeAtZero([Share(1, 5), Share(1, 5)], 7) == Err(DuplicateX)
  {
    var s := [Share(1, 5), Share(1, 5)];
    assert LongDenominator(1, 1, 7) == 0;
    assert ExtendedEuclid(0, 7, 0, 1) == Coefficient(1);
    assert LongWeightUpTo(s, 0, 2, 7, false) == Ok(1);
    assert LongWeightUpTo(s, 1, 2, 7, false) == Ok(1);
    assert LongSumUpTo(s, 1, 7, false) == Ok(5);
    assert WeightUpTo(s, 0, 2, 7) == Err(DuplicateX);
  }
}
