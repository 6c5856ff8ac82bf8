/** The scheme end to end: shares handed out by the generators and any
    threshold-sized subset of them handed to reconstruction, plus the
    worked example p = 101, n = 5, t = 3, secret = 42. */
module Scenarios {
  import opened Wrappers
  import opened ModArith
  import opened Field
  import opened Common
  import opened Polynomial
  import opened Lagrange
  import GenCoef
  import GenShares
  import ReconKey
  import P256

  /** Positions into a share list, strictly increasing: a subset of the
      shares, each at most once. */
  predicate Increasing(idx: seq<int>) {
    forall j, k :: 0 <= j < k < |idx| ==> idx[j] < idx[k]
  }

  /** The shares at the chosen positions. */
  function Select(s: seq<Share>, idx: seq<int>): (r: seq<Share>)
    requires forall j :: 0 <= j < |idx| ==> 0 <= idx[j] < |s|
    ensures |r| == |idx| && forall j :: 0 <= j < |idx| ==> r[j] == s[idx[j]]
  {
    seq(|idx|, j requires 0 <= j < |idx| => s[idx[j]])
  }

  /** Threshold recovery: shares (k, y_k) with y_k = f(k) modulo a prime
      above their number, any at least two of them and at least as many as
      f has coefficients, interpolate to f(0). */
  lemma SubsetRecoversSecret(s: seq<Share>, c: seq<int>, p: int, idx: seq<int>)
    requires IsPrime(p) && |s| < p
    requires forall k :: 0 <= k < |s| ==> s[k].x == k + 1 && ModEq(s[k].y, Eval(c, k + 1), p)
    requires Increasing(idx) && forall j :: 0 <= j < |idx| ==> 0 <= idx[j] < |s|
    requires |idx| >= 2 && |c| <= |idx|
    ensures LagrangeAtZero(Select(s, idx), p) == Ok((if c == [] then 0 else c[0]) % p)
  {
    var chosen := Select(s, idx);
    DistinctReduced(Xs(chosen), p);
    LagrangeRecoversSecret(chosen, c, p);
  }

  /** generateShares_int, then reconstructKey_int on any t or more of the
      shares: the secret comes back, reduced modulo the prime. */
  method ShareAndReconstructInt(secret: int, n: int, t: int, mod: int, draws: seq<int>, idx: seq<int>)
    returns (r: Result<int>)
    requires IsPrime(mod) && mod <= IntModulusMax && n < mod
    requires 0 <= secret && secret + (mod - 1) * (mod - 1) <= Int32Max
    requires 2 <= t <= n && |draws| >= t - 1
    requires forall i :: 0 <= i < |draws| ==> 1 <= draws[i] <= mod - 1
    requires Increasing(idx) && forall j :: 0 <= j < |idx| ==> 0 <= idx[j] < n
    requires |idx| >= t
    ensures r == Ok(secret % mod)
  {
    var generated := GenShares.GenerateSharesInt(secret, n, t, mod, draws);
    var shares := generated.value;
    ghost var c := [secret] + draws[..t - 1];
    forall k | 0 <= k < |shares|
      ensures ModEq(shares[k].y, Eval(c, k + 1), mod)
    {
      ModEqReduce(Eval(c, k + 1), mod);
    }
    var chosen := Select(shares, idx);
    r := ReconKey.ReconstructKeyInt(chosen, mod);
    DistinctReduced(Xs(chosen), mod);
    ReconKey.ReconstructIntRecoversSecret(chosen, c, mod);
  }

  /** generateShares_BIGNUM, then reconstructKey_BIGNUM on any t or more
      (and at least two) of the shares: the private key comes back modulo
      a prime order, unless a random draw failed. */
  method ShareAndReconstructBignum(privateKey: int, n: int, t: int, order: int, draws: seq<Option<int>>, idx: seq<int>)
    returns (r: Result<int>)
    requires IsPrime(order) && n < order && |draws| >= t - 1
    requires forall i :: 0 <= i < |draws| && draws[i].Some? ==> 0 <= draws[i].value < P256.FieldPrime
    requires Increasing(idx) && forall j :: 0 <= j < |idx| ==> 0 <= idx[j] < n
    requires |idx| >= 2 && |idx| >= t
    ensures r.Ok? <==> forall i :: 0 <= i < t - 1 ==> draws[i].Some?
    ensures r.Err? ==> r.error == RandomFailure
    ensures r.Ok? ==> r.value == privateKey % order
  {
    var generated := GenShares.GenerateSharesBignum(privateKey, n, t, order, draws);
    if generated.Err? {
      return Err(generated.error);
    }
    var shares := generated.value;
    ghost var c := GenCoef.CoefficientsUpTo(privateKey, draws, if t < 1 then 0 else t - 1).value;
    forall k | 0 <= k < |shares|
      ensures ModEq(shares[k].y, Eval(c, k + 1), order)
    {
      ModEqReduce(Eval(c, k + 1), order);
    }
    var chosen := Select(shares, idx);
    r := ReconKey.ReconstructKeyBignum(chosen, order);
    SubsetRecoversSecret(shares, c, order, idx);
  }

  /** The worked example: f(X) = 42 + 17X + 33X^2 modulo 101 gives the
      shares (1, 92), (2, 6), (3, 87), (4, 32), (5, 43); shares 1, 3 and 5
      give back 42 through every reconstruction that computes inverses
      correctly, and a single share is refused. */
  lemma HundredAndOne()
    ensures IsPrime(101)
    ensures LagrangeAtZero([Share(1, 92), Share(3, 87), Share(5, 43)], 101) == Ok(42)
    ensures ReconKey.IntSumUpTo([Share(1, 92), Share(3, 87), Share(5, 43)], 3, 101) == Ok(42)
    ensures ReconKey.LongReconstruct([Share(1, 92), Share(3, 87), Share(5, 43)], 101, true) == Ok(42)
    ensures LagrangeAtZero([Share(1, 92)], 101) == Err(TooFewShares)
  {
    PrimeByTrialDivision(101, 11);
    var s := [Share(1, 92), Share(3, 87), Share(5, 43)];
    var c := [42, 17, 33];
    assert Eval(c, 1) == 92 && Eval(c, 3) == 390 && Eval(c, 5) == 952;
    DistinctReduced(Xs(s), 101);
    ReconKey.ReconstructIntRecoversSecret(s, c, 101);
    ReconKey.LongFixedRecoversSecret(s, c, 101);
  }

  /** The five shares of the worked example, from the share formula. */
  lemma HundredAndOneShares(shares: seq<Share>)
    requires |shares| == 5
    requires forall k :: 0 <= k < 5 ==> shares[k].x == k + 1
    requires forall k :: 0 <= k < 5 ==> shares[k].y == Eval([42] + [17, 33][..2], k + 1) % 101
    ensures shares == [Share(1, 92), Share(2, 6), Share(3, 87), Share(4, 32), Share(5, 43)]
  {
    var c := [42] + [17, 33][..2];
    assert c == [42, 17, 33];
    assert Eval(c, 1) == 92 && Eval(c, 2) == 208 && Eval(c, 3) == 390;
    assert Eval(c, 4) == 638 && Eval(c, 5) == 952;
    assert shares[0].y == Eval(c, 1) % 101 && shares[1].y == Eval(c, 2) % 101;
    assert shares[2].y == Eval(c, 3) % 101 && shares[3].y == Eval(c, 4) % 101;
    assert shares[4].y == Eval(c, 5) % 101;
  }

  /** The same example through the imperative code: generateShares_int
      with the draws 17 and 33, then reconstructKey_int on shares 1, 3, 5. */
  method HundredAndOneRun() returns (shares: seq<Share>, secret: Result<int>)
    ensures shares == [Share(1, 92), Share(2, 6), Share(3, 87), Share(4, 32), Share(5, 43)]
    ensures secret == Ok(42)
  {
    var generated := GenShares.GenerateSharesInt(42, 5, 3, 101, [17, 33]);
    shares := generated.value;
    HundredAndOneShares(shares);
    secret := HundredAndOneReconstruct(shares);
  }

  /** reconstructKey_int on shares 1, 3 and 5 of the worked example. */
  method HundredAndOneReconstruct(shares: seq<Share>) returns (secret: Result<int>)
    requires shares == [Share(1, 92), Share(2, 6), Share(3, 87), Share(4, 32), Share(5, 43)]
    ensures secret == Ok(42)
  {
    var chosen := Select(shares, [0, 2, 4]);
    assert chosen == [Share(1, 92), Share(3, 87), Share(5, 43)];
    HundredAndOne();
    secret := ReconKey.ReconstructKeyInt(chosen, 101);
  }
}
