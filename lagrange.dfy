/** Lagrange interpolation at zero over Z/pZ, exactly as the BIGNUM
    reconstruction loop computes it: for every share i a weight
    L_i = prod_{j != i} x_j * (x_j - x_i)^-1 (mod p) is accumulated in share
    order, failing on a zero denominator or a missing inverse, and the
    secret is sum_i L_i * y_i (mod p). This is the specification the
    reconstruction methods are proved against, and the place where the
    round trip "shares of a polynomial of degree < k give back its constant
    term" is proved. */
module Lagrange {
  import opened Wrappers
  import opened ModArith
  import opened Field
  import opened Polynomial
  import opened Common

  /** The x coordinates of the shares, in order. */
  function Xs(s: seq<Share>): (xs: seq<int>)
    ensures |xs| == |s| && forall i :: 0 <= i < |s| ==> xs[i] == s[i].x
  {
    seq(|s|, i requires 0 <= i < |s| => s[i].x)
  }

  /** The weight of share i after the inner loop has visited shares 0..k-1. */
  function WeightUpTo(s: seq<Share>, i: nat, k: nat, p: int): (r: Result<int>)
    requires i < |s| && k <= |s| && p >= 1
    ensures p >= 2 && r.Ok? ==> 0 <= r.value < p
  {
    if k == 0 then Ok(1)
    else
      match WeightUpTo(s, i, k - 1, p)
      case Err(e) => Err(e)
      case Ok(l) =>
        if k - 1 == i then Ok(l)
        else
          var d := ModSub(s[k - 1].x, s[i].x, p);
          if d == 0 then Err(DuplicateX)
          else
            match ModInverse(d, p)
            case None => Err(NoInverse)
            case Some(inv) => Ok(ModMul(l, ModMul(s[k - 1].x, inv, p), p))
  }

  /** The running secret after the outer loop has handled shares 0..k-1. */
  function SumUpTo(s: seq<Share>, k: nat, p: int): (r: Result<int>)
    requires k <= |s| && p >= 1
    ensures r.Ok? ==> 0 <= r.value < p
  {
    if k == 0 then Ok(0)
    else
      match SumUpTo(s, k - 1, p)
      case Err(e) => Err(e)
      case Ok(acc) =>
        match WeightUpTo(s, k - 1, |s|, p)
        case Err(e) => Err(e)
        case Ok(l) => Ok(ModAdd(acc, ModMul(l, s[k - 1].y, p), p))
  }

  /** Reconstruction of the secret from shares, modulo p. */
  function LagrangeAtZero(s: seq<Share>, p: int): (r: Result<int>)
    requires p >= 1
    ensures r.Ok? ==> 0 <= r.value < p
    ensures |s| < 2 ==> r == Err(TooFewShares)
  {
    if |s| < 2 then Err(TooFewShares) else SumUpTo(s, |s|, p)
  }

  // ---------------------------------------------------------------------
  // When reconstruction fails

  /** Once the inner loop has failed, visiting more shares keeps the error. */
  lemma {:induction false} WeightErrorSticks(s: seq<Share>, i: nat, k: nat, k': nat, p: int)
    requires i < |s| && k <= k' <= |s| && p >= 1 && WeightUpTo(s, i, k, p).Err?
    ensures WeightUpTo(s, i, k', p) == WeightUpTo(s, i, k, p)
  {
    if k' > k {
      WeightErrorSticks(s, i, k, k' - 1, p);
    }
  }

  /** Once the outer loop has failed, handling more shares keeps the error. */
  lemma {:induction false} SumErrorSticks(s: seq<Share>, k: nat, k': nat, p: int)
    requires k <= k' <= |s| && p >= 1 && SumUpTo(s, k, p).Err?
    ensures SumUpTo(s, k', p) == SumUpTo(s, k, p)
  {
    if k' > k {
      SumErrorSticks(s, k, k' - 1, p);
    }
  }

  /** Modulo a prime, the weight of share i fails exactly when some other
      visited share has the same x modulo p, and then with DuplicateX. */
  lemma {:induction false} WeightOkIff(s: seq<Share>, i: nat, k: nat, p: int)
    requires IsPrime(p) && i < |s| && k <= |s|
    ensures WeightUpTo(s, i, k, p).Ok? <==>
              forall j :: 0 <= j < k && j != i ==> s[j].x % p != s[i].x % p
    ensures WeightUpTo(s, i, k, p).Err? ==> WeightUpTo(s, i, k, p).error == DuplicateX
  {
    if k > 0 {
      WeightOkIff(s, i, k - 1, p);
      var j := k - 1;
      if WeightUpTo(s, i, k - 1, p).Ok? && j != i {
        var d := ModSub(s[j].x, s[i].x, p);
        if d != 0 {
          DivModUnique(d, p, 0, d);
          PrimeInverse(d, p);
        }
      }
    }
  }

  /** Every share among the first k has a successful weight. */
  ghost predicate WeightsOk(s: seq<Share>, k: nat, p: int)
    requires k <= |s| && p >= 1
  {
    forall i :: 0 <= i < k ==> WeightUpTo(s, i, |s|, p).Ok?
  }

  /** The outer loop fails exactly when the weight of some visited share
      fails. */
  lemma {:induction false} SumOkIff(s: seq<Share>, k: nat, p: int)
    requires k <= |s| && p >= 1
    ensures SumUpTo(s, k, p).Ok? <==> WeightsOk(s, k, p)
  {
    if k > 0 {
      SumOkIff(s, k - 1, p);
      if WeightsOk(s, k, p) {
        assert WeightsOk(s, k - 1, p);
      } else if WeightsOk(s, k - 1, p) {
        assert !WeightUpTo(s, k - 1, |s|, p).Ok?;
      }
    }
  }

  /** A failing outer loop reports the error of the weight that failed. */
  lemma {:induction false} SumError(s: seq<Share>, k: nat, p: int) returns (i: nat)
    requires k <= |s| && p >= 1 && SumUpTo(s, k, p).Err?
    ensures i < k && WeightUpTo(s, i, |s|, p) == Err(SumUpTo(s, k, p).error)
  {
    if SumUpTo(s, k - 1, p).Err? {
      i := SumError(s, k - 1, p);
    } else {
      i := k - 1;
    }
  }

  /** Modulo a prime, reconstruction fails exactly when there are fewer
      than two shares or two shares' x agree modulo p, and then says which. */
  lemma LagrangeErrors(s: seq<Share>, p: int)
    requires IsPrime(p)
    ensures LagrangeAtZero(s, p).Err? <==> |s| < 2 || !DistinctMod(Xs(s), p)
    ensures |s| >= 2 && !DistinctMod(Xs(s), p) ==> LagrangeAtZero(s, p) == Err(DuplicateX)
  {
    if |s| >= 2 {
      var xs := Xs(s);
      SumOkIff(s, |s|, p);
      if !DistinctMod(xs, p) {
        var i, j :| 0 <= i < |s| && 0 <= j < |s| && i != j && xs[i] % p == xs[j] % p;
        WeightOkIff(s, i, |s|, p);
        assert !WeightsOk(s, |s|, p);
        var e := SumError(s, |s|, p);
        WeightOkIff(s, e, |s|, p);
      } else {
        forall i | 0 <= i < |s|
          ensures WeightUpTo(s, i, |s|, p).Ok?
        {
          WeightOkIff(s, i, |s|, p);
        }
      }
    }
  }

  // ---------------------------------------------------------------------
  // Why reconstruction recovers the secret

  /** N_i(X) = prod_{j < k, j != i} (x_j - X), over the integers. */
  ghost function NumPoly(s: seq<Share>, i: nat, k: nat): (r: seq<int>)
    requires k <= |s|
    ensures |r| == if i < k then k else k + 1
  {
    if k == 0 then [1]
    else if k - 1 == i then NumPoly(s, i, k - 1)
    else MulLinear(NumPoly(s, i, k - 1), s[k - 1].x)
  }

  /** The product of the inverses of the denominators the weight loop
      meets (0 stands in for a missing inverse). */
  ghost function DenomUpTo(s: seq<Share>, i: nat, k: nat, p: int): int
    requires i < |s| && k <= |s| && p >= 1
  {
    if k == 0 then 1
    else if k - 1 == i then DenomUpTo(s, i, k - 1, p)
    else
      DenomUpTo(s, i, k - 1, p) *
        match ModInverse(ModSub(s[k - 1].x, s[i].x, p), p)
        case Some(inv) => inv
        case None => 0
  }

  /** N_i vanishes, exactly, at every other visited share. */
  lemma {:induction false} NumPolyRoots(s: seq<Share>, i: nat, k: nat, m: nat)
    requires k <= |s| && m < k && m != i
    ensures Eval(NumPoly(s, i, k), s[m].x) == 0
  {
    if k - 1 == i {
      assert NumPoly(s, i, k) == NumPoly(s, i, k - 1);
      NumPolyRoots(s, i, k - 1, m);
    } else {
      assert NumPoly(s, i, k) == MulLinear(NumPoly(s, i, k - 1), s[k - 1].x);
      if m < k - 1 {
        NumPolyRoots(s, i, k - 1, m);
      }
      LinearRoot(NumPoly(s, i, k - 1), s[k - 1].x, s[m].x);
    }
  }

  /** (a - X) * n(X) vanishes at z when z is a or a root of n. */
  lemma LinearRoot(n: seq<int>, a: int, z: int)
    requires a == z || Eval(n, z) == 0
    ensures Eval(MulLinear(n, a), z) == 0
  {
    EvalMulLinear(n, a, z);
    if a != z {
      assert (a - z) * Eval(n, z) == 0;
    }
  }

  /** One step of the weight: multiplying by x_j * inv keeps
      "weight == N(0) * D" once N gains the factor (x_j - X) and D the
      factor inv. */
  lemma WeightStep(l0: int, n0: int, d0: int, xj: int, inv: int, p: int)
    requires p >= 1 && ModEq(l0, n0 * d0, p)
    ensures ModEq(ModMul(l0, ModMul(xj, inv, p), p), ((xj - 0) * n0) * (d0 * inv), p)
  {
    var t := ModMul(xj, inv, p);
    ModEqMul(l0, n0 * d0, t, xj * inv, p);
    assert (n0 * d0) * (xj * inv) == ((xj - 0) * n0) * (d0 * inv);
  }

  /** One step of the denominator: if D inverts N(x_i) and inv inverts
      x_j - x_i, then D * inv inverts (x_j - x_i) * N(x_i). */
  lemma DenomStep(d0: int, n0: int, d: int, inv: int, diff: int, p: int)
    requires p >= 1 && ModEq(d0 * n0, 1, p) && ModEq(d * inv, 1, p) && ModEq(d, diff, p)
    ensures ModEq((d0 * inv) * (diff * n0), 1, p)
  {
    ModEqMul(inv, inv, d, diff, p);
    assert inv * d == d * inv;
    ModEqMul(d0 * n0, 1, inv * diff, 1, p);
    assert (d0 * n0) * (inv * diff) == (d0 * inv) * (diff * n0);
  }

  /** A successful weight is N_i(0) times the inverse of N_i(x_i). */
  lemma {:induction false} WeightTracksNumPoly(s: seq<Share>, i: nat, k: nat, p: int)
    requires i < |s| && k <= |s| && p >= 1 && WeightUpTo(s, i, k, p).Ok?
    ensures ModEq(WeightUpTo(s, i, k, p).value, Eval(NumPoly(s, i, k), 0) * DenomUpTo(s, i, k, p), p)
    ensures ModEq(DenomUpTo(s, i, k, p) * Eval(NumPoly(s, i, k), s[i].x), 1, p)
  {
    if k == 0 {
      assert Eval([1], 0) == 1 && Eval([1], s[i].x) == 1;
    } else if k - 1 != i {
      WeightTracksNumPoly(s, i, k - 1, p);
      var xj, xi := s[k - 1].x, s[i].x;
      var n0 := NumPoly(s, i, k - 1);
      var d := ModSub(xj, xi, p);
      var inv := ModInverse(d, p).value;
      EvalMulLinear(n0, xj, 0);
      EvalMulLinear(n0, xj, xi);
      WeightStep(WeightUpTo(s, i, k - 1, p).value, Eval(n0, 0), DenomUpTo(s, i, k - 1, p), xj, inv, p);
      DenomStep(DenomUpTo(s, i, k - 1, p), Eval(n0, xi), d, inv, xj - xi, p);
    } else {
      WeightTracksNumPoly(s, i, k - 1, p);
    }
  }

  /** sum_{i < k} y_i * D_i * N_i(X): the polynomial of degree < |s| through
      the shares. */
  ghost function InterpUpTo(s: seq<Share>, k: nat, p: int): (r: seq<int>)
    requires k <= |s| && p >= 1
    ensures |r| <= |s|
  {
    if k == 0 then []
    else Add(InterpUpTo(s, k - 1, p), Scale(s[k - 1].y * DenomUpTo(s, k - 1, |s|, p), NumPoly(s, k - 1, |s|)))
  }

  /** Adding the k-th share's term to the interpolant, evaluated at z. */
  lemma InterpUnfold(s: seq<Share>, k: nat, p: int, z: int)
    requires 1 <= k <= |s| && p >= 1
    ensures Eval(InterpUpTo(s, k, p), z)
            == Eval(InterpUpTo(s, k - 1, p), z) + (s[k - 1].y * DenomUpTo(s, k - 1, |s|, p)) * Eval(NumPoly(s, k - 1, |s|), z)
  {
    var c := s[k - 1].y * DenomUpTo(s, k - 1, |s|, p);
    EvalAdd(InterpUpTo(s, k - 1, p), Scale(c, NumPoly(s, k - 1, |s|)), z);
    EvalScale(c, NumPoly(s, k - 1, |s|), z);
  }

  /** At its own point the new term contributes y: D inverts N(x_i). */
  lemma OwnTerm(prev: int, y: int, dn: int, nz: int, p: int)
    requires p >= 1 && ModEq(prev, 0, p) && ModEq(dn * nz, 1, p)
    ensures ModEq(prev + (y * dn) * nz, y, p)
  {
    ModEqMul(y, y, dn * nz, 1, p);
    assert (y * dn) * nz == y * (dn * nz);
    ModEqAdd(prev, 0, (y * dn) * nz, y, p);
  }

  /** The interpolating polynomial takes the value y_m at x_m, modulo p,
      once the shares up to m have been added in. */
  lemma {:induction false} InterpAtPoints(s: seq<Share>, k: nat, p: int, m: nat)
    requires k <= |s| && p >= 1 && m < |s|
    requires WeightsOk(s, |s|, p)
    ensures ModEq(Eval(InterpUpTo(s, k, p), s[m].x), if m < k then s[m].y else 0, p)
  {
    if k > 0 {
      InterpAtPoints(s, k - 1, p, m);
      if m == k - 1 {
        InterpOwnPoint(s, k, p);
      } else {
        InterpOtherPoint(s, k, p, m, if m < k then s[m].y else 0);
      }
    }
  }

  /** The k-th term brings the interpolant from 0 to y at its own point. */
  lemma InterpOwnPoint(s: seq<Share>, k: nat, p: int)
    requires 1 <= k <= |s| && p >= 1 && WeightUpTo(s, k - 1, |s|, p).Ok?
    requires ModEq(Eval(InterpUpTo(s, k - 1, p), s[k - 1].x), 0, p)
    ensures ModEq(Eval(InterpUpTo(s, k, p), s[k - 1].x), s[k - 1].y, p)
  {
    var i := k - 1;
    InterpUnfold(s, k, p, s[i].x);
    WeightTracksNumPoly(s, i, |s|, p);
    OwnTerm(Eval(InterpUpTo(s, i, p), s[i].x), s[i].y, DenomUpTo(s, i, |s|, p), Eval(NumPoly(s, i, |s|), s[i].x), p);
  }

  /** The k-th term vanishes at every other share's point. */
  lemma InterpOtherPoint(s: seq<Share>, k: nat, p: int, m: nat, t: int)
    requires 1 <= k <= |s| && p >= 1 && m < |s| && m != k - 1
    requires ModEq(Eval(InterpUpTo(s, k - 1, p), s[m].x), t, p)
    ensures ModEq(Eval(InterpUpTo(s, k, p), s[m].x), t, p)
  {
    InterpUnfold(s, k, p, s[m].x);
    NumPolyRoots(s, k - 1, |s|, m);
  }

  /** One iteration of the BIGNUM reconstruction's outer loop. */
  lemma SumUnfold(s: seq<Share>, i: nat, order: int, acc: int, l: int)
    requires i < |s| && order >= 1
    requires SumUpTo(s, i, order) == Ok(acc)
    requires WeightUpTo(s, i, |s|, order) == Ok(l)
    ensures SumUpTo(s, i + 1, order) == Ok(ModAdd(acc, ModMul(l, s[i].y, order), order))
  {
  }

  /** One step of the outer loop: adding weight * y keeps the running
      secret congruent to the partial interpolant at zero. */
  lemma SumStep(acc: int, i0: int, l: int, n0: int, dn: int, y: int, p: int)
    requires p >= 1 && ModEq(acc, i0, p) && ModEq(l, n0 * dn, p)
    ensures ModEq(ModAdd(acc, ModMul(l, y, p), p), i0 + (y * dn) * n0, p)
  {
    ModEqMul(l, n0 * dn, y, y, p);
    assert (n0 * dn) * y == (y * dn) * n0;
    ModEqAdd(acc, i0, ModMul(l, y, p), (y * dn) * n0, p);
  }

  /** The running secret is the interpolating polynomial at zero, modulo p. */
  lemma {:induction false} InterpAtZero(s: seq<Share>, k: nat, p: int)
    requires k <= |s| && p >= 1 && SumUpTo(s, k, p).Ok?
    ensures ModEq(SumUpTo(s, k, p).value, Eval(InterpUpTo(s, k, p), 0), p)
  {
    if k > 0 {
      assert SumUpTo(s, k - 1, p).Ok? && WeightUpTo(s, k - 1, |s|, p).Ok?;
      InterpAtZero(s, k - 1, p);
      InterpZeroStep(s, k, p, SumUpTo(s, k - 1, p).value, WeightUpTo(s, k - 1, |s|, p).value);
    }
  }

  /** One outer iteration keeps the running secret at the interpolant's
      value at zero. */
  lemma InterpZeroStep(s: seq<Share>, k: nat, p: int, acc: int, l: int)
    requires 1 <= k <= |s| && p >= 1
    requires SumUpTo(s, k - 1, p) == Ok(acc) && WeightUpTo(s, k - 1, |s|, p) == Ok(l)
    requires ModEq(acc, Eval(InterpUpTo(s, k - 1, p), 0), p)
    ensures SumUpTo(s, k, p).Ok? && ModEq(SumUpTo(s, k, p).value, Eval(InterpUpTo(s, k, p), 0), p)
  {
    var i := k - 1;
    SumUnfold(s, i, p, acc, l);
    InterpUnfold(s, k, p, 0);
    WeightTracksNumPoly(s, i, |s|, p);
    SumStep(acc, Eval(InterpUpTo(s, i, p), 0), l, Eval(NumPoly(s, i, |s|), 0), DenomUpTo(s, i, |s|, p), s[i].y, p);
  }

  /** The sharing polynomial minus the interpolant vanishes at every
      share's point. */
  lemma DifferenceVanishes(s: seq<Share>, coeffs: seq<int>, p: int, m: nat)
    requires p >= 1 && m < |s| && WeightsOk(s, |s|, p)
    requires ModEq(s[m].y, Eval(coeffs, s[m].x), p)
    ensures Eval(Sub(coeffs, InterpUpTo(s, |s|, p)), s[m].x) % p == 0
  {
    var interp := InterpUpTo(s, |s|, p);
    InterpAtPoints(s, |s|, p, m);
    EvalSub(coeffs, interp, s[m].x);
    BothCongruent(Eval(coeffs, s[m].x), Eval(interp, s[m].x), s[m].y, p);
  }

  /** Two values congruent to the same y differ by a multiple of p. */
  lemma BothCongruent(u: int, v: int, y: int, p: int)
    requires p >= 1 && ModEq(y, u, p) && ModEq(v, y, p)
    ensures (u - v) % p == 0
  {
    ModEqSub(u, y, v, y, p);
  }

  /** The round trip: k >= 2 shares with x distinct modulo a prime p, taken
      from a polynomial with at most k coefficients, reconstruct its
      constant term modulo p. */
  lemma LagrangeRecoversSecret(s: seq<Share>, coeffs: seq<int>, p: int)
    requires IsPrime(p) && |s| >= 2 && DistinctMod(Xs(s), p) && |coeffs| <= |s|
    requires forall i :: 0 <= i < |s| ==> ModEq(s[i].y, Eval(coeffs, s[i].x), p)
    ensures LagrangeAtZero(s, p) == Ok((if coeffs == [] then 0 else coeffs[0]) % p)
  {
    var xs := Xs(s);
    LagrangeErrors(s, p);
    SumOkIff(s, |s|, p);
    var r := SumUpTo(s, |s|, p).value;
    var interp := InterpUpTo(s, |s|, p);
    var q := Sub(coeffs, interp);
    forall m | 0 <= m < |xs|
      ensures Eval(q, xs[m]) % p == 0
    {
      assert xs[m] == s[m].x;
      DifferenceVanishes(s, coeffs, p, m);
    }
    VanishesEverywhere(q, xs, p, 0);
    EvalSub(coeffs, interp, 0);
    InterpAtZero(s, |s|, p);
    ModEqDiff(Eval(coeffs, 0), Eval(interp, 0), p);
    DivModUnique(r, p, 0, r);
    EvalAtZero(coeffs);
  }
}
