/** threshold_crypto.cpp: the BIGNUM sharing scheme again, with a public
    key per share. Key generation and public-key derivation are elliptic
    curve operations on P-256; here a public key is any function of the
    scalar, passed in as `publicKey`. */
module ThresholdCrypto {
  import opened Wrappers
  import opened ModArith
  import opened Field
  import opened Common
  import opened Polynomial
  import opened Lagrange
  import GenCoef
  import GenShares
  import ReconKey
  import P256

  /** generatePolynomial: the body of generateCoefficients_BIGNUM (its
      context argument is unused): the secret, then t - 1 draws below the
      field prime; a failed draw throws. */
  method GeneratePolynomial(secret: int, t: int, draws: seq<Option<int>>) returns (r: Result<seq<int>>)
    requires |draws| >= t - 1
    requires forall i :: 0 <= i < |draws| && draws[i].Some? ==> 0 <= draws[i].value < P256.FieldPrime
    ensures r == GenCoef.CoefficientsUpTo(secret, draws, if t < 1 then 0 else t - 1)
    ensures r.Ok? ==> |r.value| == (if t < 1 then 1 else t) && r.value[0] == secret
    ensures r.Ok? ==> forall i :: 1 <= i < |r.value| ==> 0 <= r.value[i] < P256.FieldPrime
  {
    r := GenCoef.DrawCoefficients(secret, t, draws, P256.FieldPrime);
  }

  /** evaluatePolynomial: the same loop as evaluatePolynomial_BIGNUM. */
  method EvaluatePolynomial(coefficients: seq<int>, x: int, order: int) returns (result: int)
    requires order >= 1
    ensures 0 <= result < order
    ensures result == Eval(coefficients, x) % order
  {
    result := GenShares.EvaluatePolynomialBignum(coefficients, x, order);
  }

  /** What generateShares hands out for the polynomial c: for k = 1..n the
      pair (f(k) mod order, publicKey(f(k) mod order)). The point k itself
      is not kept. */
  function KeyPairs(c: seq<int>, n: nat, order: int, publicKey: int -> int): (r: seq<(int, int)>)
    requires order >= 1
    ensures |r| == n
    ensures forall k :: 0 <= k < n ==>
      r[k].0 == Eval(c, k + 1) % order && r[k].1 == publicKey(Eval(c, k + 1) % order)
  {
    seq(n, k requires 0 <= k < n => (Eval(c, k + 1) % order, publicKey(Eval(c, k + 1) % order)))
  }

  /** generateShares: coefficients from generatePolynomial, then for
      x = 1..n the share value y = f(x) mod order and its public key,
      stored as the pair (y, publicKey). */
  method GenerateShares(privateKey: int, n: int, t: int, order: int, draws: seq<Option<int>>, publicKey: int -> int)
    returns (r: Result<seq<(int, int)>>)
    requires order >= 1 && |draws| >= t - 1
    requires forall i :: 0 <= i < |draws| && draws[i].Some? ==> 0 <= draws[i].value < P256.FieldPrime
    ensures r.Ok? <==> GenCoef.CoefficientsUpTo(privateKey, draws, if t < 1 then 0 else t - 1).Ok?
    ensures r.Err? ==> r.error == RandomFailure
    ensures r.Ok? ==> r.value == KeyPairs(GenCoef.CoefficientsUpTo(privateKey, draws, if t < 1 then 0 else t - 1).value,
                                          if n < 0 then 0 else n, order, publicKey)
  {
    var generated := GeneratePolynomial(privateKey, t, draws);
    if generated.Err? {
      return Err(generated.error);
    }
    var coefficients := generated.value;
    var shares: seq<(int, int)> := [];
    var i := 1;
    while i <= n
      invariant 1 <= i && (i <= n + 1 || i == 1)
      invariant shares == KeyPairs(coefficients, i - 1, order, publicKey)
    {
      var y := EvaluatePolynomial(coefficients, i, order);
      var pub := publicKey(y);
      shares := shares + [(y, pub)];
      i := i + 1;
    }
    return Ok(shares);
  }

  /** The shares reconstructKeyPair reads: `.first` as x, `.second` as y. */
  function AsShares(pairs: seq<(int, int)>): (s: seq<Share>)
    ensures |s| == |pairs| && forall i :: 0 <= i < |pairs| ==> s[i] == Share(pairs[i].0, pairs[i].1)
  {
    seq(|pairs|, i requires 0 <= i < |pairs| => Share(pairs[i].0, pairs[i].1))
  }

  /** reconstructKeyPair up to the public key of the result: fewer than two
      pairs throw, then the Lagrange loop of reconstructKey_BIGNUM runs on
      the pairs read as (x, y). */
  method ReconstructKeyPair(pairs: seq<(int, int)>, order: int) returns (r: Result<int>)
    requires order >= 1
    ensures r == LagrangeAtZero(AsShares(pairs), order)
    ensures |pairs| < 2 ==> r == Err(TooFewShares)
    ensures r.Ok? ==> 0 <= r.value < order
  {
    r := ReconKey.ReconstructKeyBignum(AsShares(pairs), order);
  }

  /** generateShares followed by reconstructKeyPair does not give the key
      back: for f(X) = 42 + 5X + 7X^2 modulo 101 and a public key map that
      sends every scalar to 0, the pairs are (54, 0), (80, 0), (19, 0), and
      interpolating them as points yields 0, not 42. */
  lemma KeyPairsLoseX()
    ensures KeyPairs([42, 5, 7], 3, 101, z => 0) == [(54, 0), (80, 0), (19, 0)]
    ensures LagrangeAtZero(AsShares(KeyPairs([42, 5, 7], 3, 101, z => 0)), 101) == Ok(0)
  {
    var pairs := KeyPairs([42, 5, 7], 3, 101, z => 0);
    assert Eval([42, 5, 7], 1) == 54 && Eval([42, 5, 7], 2) == 80 && Eval([42, 5, 7], 3) == 120;
    assert pairs == [(54, 0), (80, 0), (19, 0)];
    var s := AsShares(pairs);
    PrimeByTrialDivision(101, 11);
    DistinctReduced(Xs(s), 101);
    LagrangeRecoversSecret(s, [], 101);
  }

  /** The layout reconstructKeyPair expects: for k = 1..n the pair
      (k, f(k) mod order). */
  function PointPairs(c: seq<int>, n: nat, order: int): (r: seq<(int, int)>)
    requires order >= 1
    ensures |r| == n
    ensures forall k :: 0 <= k < n ==> r[k] == (k + 1, Eval(c, k + 1) % order)
  {
    seq(n, k requires 0 <= k < n => (k + 1, Eval(c, k + 1) % order))
  }

  /** generateShares keeping x: the pairs (x, f(x) mod order). */
  method GenerateSharesWithX(privateKey: int, n: int, t: int, order: int, draws: seq<Option<int>>)
    returns (r: Result<seq<(int, int)>>)
    requires order >= 1 && |draws| >= t - 1
    requires forall i :: 0 <= i < |draws| && draws[i].Some? ==> 0 <= draws[i].value < order
    ensures r.Ok? <==> GenCoef.CoefficientsUpTo(privateKey, draws, if t < 1 then 0 else t - 1).Ok?
    ensures r.Err? ==> r.error == RandomFailure
    ensures r.Ok? ==> r.value == PointPairs(GenCoef.CoefficientsUpTo(privateKey, draws, if t < 1 then 0 else t - 1).value,
                                            if n < 0 then 0 else n, order)
  {
    var generated := GenCoef.GenerateCoefficientsBelowOrder(privateKey, t, order, draws);
    if generated.Err? {
      return Err(generated.error);
    }
    var coefficients := generated.value;
    var shares: seq<(int, int)> := [];
    var i := 1;
    while i <= n
      invariant 1 <= i && (i <= n + 1 || i == 1)
      invariant shares == PointPairs(coefficients, i - 1, order)
    {
      var y := EvaluatePolynomial(coefficients, i, order);
      shares := shares + [(i, y)];
      i := i + 1;
    }
    return Ok(shares);
  }

  /** With x kept, reconstructKeyPair inverts generateShares: n >= 2 shares
      of a polynomial with at most n coefficients, modulo a prime order
      above n, give back its constant term. */
  lemma PointPairsRecoverSecret(c: seq<int>, n: nat, order: int)
    requires IsPrime(order) && 2 <= n < order && 1 <= |c| <= n
    ensures LagrangeAtZero(AsShares(PointPairs(c, n, order)), order) == Ok(c[0] % order)
  {
    var s := AsShares(PointPairs(c, n, order));
    DistinctReduced(Xs(s), order);
    forall i | 0 <= i < |s|
      ensures ModEq(s[i].y, Eval(c, s[i].x), order)
    {
      ModEqReduce(Eval(c, i + 1), order);
    }
    LagrangeRecoversSecret(s, c, order);
  }
}
