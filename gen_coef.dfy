/** gen_coef.cpp: the coefficient vectors of the sharing polynomial. The
    random sources (std::mt19937, rand(), BN_rand_range) are not modelled:
    the values they return come in as a sequence of draws whose range is
    the generator's contract. */
module GenCoef {
  import opened Wrappers
  import opened ModArith
  import P256

  /** generateCoefficients_int: a vector of `degree` random values in
      [1, mod - 1]. It holds no secret; evaluation adds that separately.
      A negative degree makes the vector constructor throw; the
      distribution [1, mod - 1] needs mod >= 2. */
  method GenerateCoefficientsInt(degree: int, mod: int, draws: seq<int>) returns (r: Result<seq<int>>)
    requires degree >= 0 ==> mod >= 2 && |draws| >= degree
    requires degree >= 0 ==> forall i :: 0 <= i < |draws| ==> 1 <= draws[i] <= mod - 1
    ensures degree < 0 <==> r == Err(LengthError)
    ensures r.Ok? <==> degree >= 0
    ensures r.Ok? ==> r.value == draws[..degree]
    ensures r.Ok? ==> |r.value| == degree && forall i :: 0 <= i < degree ==> 1 <= r.value[i] <= mod - 1
  {
    if degree < 0 {
      return Err(LengthError);
    }
    var coefficients := new int[degree];
    for i := 0 to degree
      invariant coefficients[..i] == draws[..i]
    {
      coefficients[i] := draws[i];
    }
    return Ok(coefficients[..]);
  }

  /** The vector generateCoefficients_long builds: the private key, then
      one value rand() % order for each of the t - 1 further coefficients. */
  function LongCoefficients(privateKey: int, t: int, order: int, draws: seq<int>): (c: seq<int>)
    requires t >= 2 ==> order >= 1 && |draws| >= t - 1
    ensures |c| == if t < 1 then 1 else t
    ensures c[0] == privateKey
    ensures forall i :: 1 <= i < |c| ==> c[i] == draws[i - 1] % order && 0 <= c[i] < order
  {
    [privateKey] + seq(if t < 1 then 0 else t - 1, i requires 0 <= i < t - 1 => draws[i] % order)
  }

  /** generateCoefficients_long. `rand()` yields values in [0, RAND_MAX]. */
  method GenerateCoefficientsLong(privateKey: U64, t: int, order: U64, draws: seq<int>) returns (coefficients: seq<int>)
    requires t >= 2 ==> order >= 1 && |draws| >= t - 1
    requires forall i :: 0 <= i < |draws| ==> 0 <= draws[i] < Word64
    ensures coefficients == LongCoefficients(privateKey, t, order, draws)
  {
    coefficients := [privateKey];
    var i := 1;
    while i < t
      invariant 1 <= i && (i <= t || i == 1)
      invariant coefficients == LongCoefficients(privateKey, i, order, draws)
    {
      var coeff := draws[i - 1] % order;
      coefficients := coefficients + [coeff];
      assert coefficients == LongCoefficients(privateKey, i + 1, order, draws);
      i := i + 1;
    }
    assert coefficients == LongCoefficients(privateKey, t, order, draws);
  }

  /** The outcome of the first k random draws of a BIGNUM coefficient
      vector: the secret, then one value per draw, failing on the first
      draw that failed. */
  function CoefficientsUpTo(secret: int, draws: seq<Option<int>>, k: nat): (r: Result<seq<int>>)
    requires k <= |draws|
    ensures r.Ok? <==> forall i :: 0 <= i < k ==> draws[i].Some?
    ensures r.Err? ==> r.error == RandomFailure
    ensures r.Ok? ==> |r.value| == k + 1 && r.value[0] == secret
    ensures r.Ok? ==> forall i :: 1 <= i <= k ==> r.value[i] == draws[i - 1].value
  {
    if k == 0 then Ok([secret])
    else
      match CoefficientsUpTo(secret, draws, k - 1)
      case Err(e) => Err(e)
      case Ok(c) =>
        match draws[k - 1]
        case None => Err(RandomFailure)
        case Some(v) => Ok(c + [v])
  }

  /** The push_back loop shared by generateCoefficients_BIGNUM and
      generatePolynomial: a copy of the secret, then t - 1 values from
      BN_rand_range(coeff, range), throwing when a draw fails. */
  method DrawCoefficients(secret: int, t: int, draws: seq<Option<int>>, range: int) returns (r: Result<seq<int>>)
    requires |draws| >= t - 1
    requires forall i :: 0 <= i < |draws| && draws[i].Some? ==> 0 <= draws[i].value < range
    ensures r == CoefficientsUpTo(secret, draws, if t < 1 then 0 else t - 1)
    ensures r.Ok? ==> forall i :: 1 <= i < |r.value| ==> 0 <= r.value[i] < range
  {
    var coefficients := [secret];
    var i := 1;
    while i < t
      invariant 1 <= i && (i <= t || i == 1) && i - 1 <= |draws|
      invariant CoefficientsUpTo(secret, draws, i - 1) == Ok(coefficients)
    {
      match draws[i - 1]
      case None =>
        FailureSticks(secret, draws, i, t - 1);
        return Err(RandomFailure);
      case Some(coeff) =>
        coefficients := coefficients + [coeff];
      i := i + 1;
    }
    return Ok(coefficients);
  }

  lemma {:induction false} FailureSticks(secret: int, draws: seq<Option<int>>, k: nat, k': nat)
    requires k <= k' <= |draws| && CoefficientsUpTo(secret, draws, k).Err?
    ensures CoefficientsUpTo(secret, draws, k') == CoefficientsUpTo(secret, draws, k)
  {
    if k' > k {
      FailureSticks(secret, draws, k, k' - 1);
    }
  }

  /** generateCoefficients_BIGNUM: the random coefficients are drawn below
      the P-256 field prime. */
  method GenerateCoefficientsBignum(secret: int, t: int, draws: seq<Option<int>>) returns (r: Result<seq<int>>)
    requires |draws| >= t - 1
    requires forall i :: 0 <= i < |draws| && draws[i].Some? ==> 0 <= draws[i].value < P256.FieldPrime
    ensures r == CoefficientsUpTo(secret, draws, if t < 1 then 0 else t - 1)
    ensures r.Ok? ==> forall i :: 1 <= i < |r.value| ==> 0 <= r.value[i] < P256.FieldPrime
  {
    r := DrawCoefficients(secret, t, draws, P256.FieldPrime);
  }

  /** The same vector with the draws taken below the group order, the
      modulus every later step reduces by. */
  method GenerateCoefficientsBelowOrder(secret: int, t: int, order: int, draws: seq<Option<int>>) returns (r: Result<seq<int>>)
    requires |draws| >= t - 1
    requires forall i :: 0 <= i < |draws| && draws[i].Some? ==> 0 <= draws[i].value < order
    ensures r == CoefficientsUpTo(secret, draws, if t < 1 then 0 else t - 1)
    ensures r.Ok? ==> forall i :: 1 <= i < |r.value| ==> 0 <= r.value[i] < order
  {
    r := DrawCoefficients(secret, t, draws, order);
  }

  /** Below the field prime, the draws 1 and n + 1 (n the group order) are
      both possible and give the same coefficient modulo n: residues below
      p - n are drawn twice as often as the others. */
  lemma FieldPrimeRangeOverlaps()
    ensures P256.Order < P256.FieldPrime
    ensures 0 <= P256.Order + 1 < P256.FieldPrime
    ensures (P256.Order + 1) % P256.Order == 1 % P256.Order
  {
    AddMultiple(1, 1, P256.Order);
  }

  /** Below the order, two draws that agree modulo the order are the same
      draw: each residue is reached by exactly one value. */
  lemma OrderRangeInjective(u: int, v: int, order: int)
    requires 0 <= u < order && 0 <= v < order && u % order == v % order
    ensures u == v
  {
    ReducedUnique(u, v, order);
  }
}
