/** secretshare.cpp: a separate, unreduced version of share generation,
    which evaluates the polynomial over plain 32-bit integers. */
module SecretShare {
  import opened Wrappers
  import opened ModArith
  import opened Polynomial

  predicate InInt32(v: int) {
    -Int32Max - 1 <= v <= Int32Max
  }

  /** Every value evaluatePolynomial computes at x stays within a 32-bit
      `int`: each power x^k (including the last one, computed and never
      used), each term and each partial sum. Signed overflow is undefined
      behaviour in C++, so this is what the code demands of its caller. */
  ghost predicate NoOverflow(coefficients: seq<int>, x: int) {
    (forall k :: 0 <= k <= |coefficients| ==> InInt32(Pow(x, k)) && InInt32(SumTerms(coefficients, x, k))) &&
    (forall k :: 0 <= k < |coefficients| ==> InInt32(coefficients[k] * Pow(x, k)))
  }

  /** The facts NoOverflow gives about step k of the loop. */
  lemma NoOverflowStep(coefficients: seq<int>, x: int, k: nat)
    requires NoOverflow(coefficients, x) && k < |coefficients|
    ensures InInt32(coefficients[k] * Pow(x, k))
    ensures InInt32(SumTerms(coefficients, x, k) + coefficients[k] * Pow(x, k))
    ensures InInt32(Pow(x, k) * x)
  {
    assert InInt32(SumTerms(coefficients, x, k + 1));
    assert InInt32(Pow(x, k + 1));
  }

  /** evaluatePolynomial: `result += coeff * power; power *= x`, i.e. the
      ascending-power sum, which is the polynomial's exact value. */
  method EvaluatePolynomial(coefficients: seq<int>, x: int) returns (result: int)
    requires NoOverflow(coefficients, x)
    ensures result == Eval(coefficients, x)
    ensures coefficients == [] ==> result == 0
  {
    result := 0;
    var power := 1;
    for k := 0 to |coefficients|
      invariant result == SumTerms(coefficients, x, k)
      invariant power == Pow(x, k)
    {
      var coeff := coefficients[k];
      NoOverflowStep(coefficients, x, k);
      assert InInt32(coeff * power) && InInt32(result + coeff * power);
      result := result + coeff * power;
      assert InInt32(power * x);
      power := power * x;
    }
    SumTermsIsEval(coefficients, x, |coefficients|);
    assert coefficients[..|coefficients|] == coefficients;
  }

  /** The coefficient vector generateShares builds from its draws. */
  function ShareCoefficients(privateKey: int, t: int, draws: seq<int>): (c: seq<int>)
    requires 1 <= t && |draws| >= t - 1
    ensures |c| == t && c[0] == privateKey
    ensures forall i :: 1 <= i < t ==> c[i] == draws[i - 1]
  {
    [privateKey] + draws[..t - 1]
  }

  /** generateShares: a vector of t coefficients with the private key at
      index 0 and values from uniform_int_distribution(1, 100) after it;
      then the pairs (k, f(k)) for k = 1..n, with no check of t against n.
      A negative t makes the vector constructor throw length_error; t == 0
      writes index 0 of an empty vector, which is undefined behaviour. */
  method GenerateShares(privateKey: int, n: int, t: int, draws: seq<int>) returns (r: Result<seq<(int, int)>>)
    requires t != 0
    requires t >= 1 ==> |draws| >= t - 1
    requires forall i :: 0 <= i < |draws| ==> 1 <= draws[i] <= 100
    requires t >= 1 ==> forall x :: 1 <= x <= n ==> NoOverflow(ShareCoefficients(privateKey, t, draws), x)
    ensures t < 0 <==> r == Err(LengthError)
    ensures r.Ok? <==> t >= 1
    ensures r.Ok? ==> |r.value| == if n < 0 then 0 else n
    ensures r.Ok? ==> forall k :: 0 <= k < |r.value| ==> r.value[k] == (k + 1, Eval([privateKey] + draws[..t - 1], k + 1))
  {
    if t < 0 {
      return Err(LengthError);
    }
    var coefficients := new int[t];
    coefficients[0] := privateKey;
    for i := 1 to t
      invariant coefficients[0] == privateKey
      invariant coefficients[1..i] == draws[..i - 1]
    {
      coefficients[i] := draws[i - 1];
    }
    ghost var c := ShareCoefficients(privateKey, t, draws);
    assert coefficients[..] == c by {
      assert coefficients[..] == [coefficients[0]] + coefficients[1..t];
    }
    var polynomial := coefficients[..];
    var shares := [];
    var i := 1;
    while i <= n
      invariant 1 <= i && (i <= n + 1 || i == 1)
      invariant |shares| == i - 1
      invariant forall k :: 0 <= k < |shares| ==> shares[k] == (k + 1, Eval(c, k + 1))
    {
      var x := i;
      var y := EvaluatePolynomial(polynomial, x);
      shares := shares + [(x, y)];
      i := i + 1;
    }
    return Ok(shares);
  }
}
