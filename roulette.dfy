/** Roulette-wheel choice of the next station: inverse-distance desirability,
    trail-weighted scores for the stations not yet visited, their normalised
    cumulative distribution, and the scan that picks a station for a draw r.
    Shared by both colony variants, which differ only in the arguments. */
module Roulette {
  import opened Stations

  /** The k-th power of x (Python's x ** k for a natural k). */
  function Pow(x: real, k: nat): real {
    if k == 0 then 1.0 else x * Pow(x, k - 1)
  }

  /** A power is non-negative when the base is, and for every even exponent. */
  lemma {:induction false} PowNonNegative(x: real, k: nat)
    requires x >= 0.0 || k % 2 == 0
    ensures Pow(x, k) >= 0.0
  {
    if k >= 2 {
      PowNonNegative(x, k - 2);
      assert Pow(x, k) == (x * x) * Pow(x, k - 2);
      assert x * x >= 0.0;
    }
  }

  /** A power of a positive base is positive, and so is an even power of any non-zero base. */
  lemma {:induction false} PowPositive(x: real, k: nat)
    requires x > 0.0 || (x != 0.0 && k % 2 == 0)
    ensures Pow(x, k) > 0.0
  {
    if k >= 2 {
      var rest := Pow(x, k - 2);
      PowPositive(x, k - 2);
      assert Pow(x, k) == (x * x) * rest;
      assert x * x > 0.0 by {
        if x < 0.0 {
          assert x * x == (-x) * (-x);
        }
      }
      assert (x * x) * rest > 0.0;
    } else if k == 1 {
      assert Pow(x, k) == x;
    }
  }

  /** Inverse distance: 1/x for a positive distance, 0 otherwise. */
  function Inverse(x: real): real {
    if x > 0.0 then 1.0 / x else 0.0
  }

  /** The inverse is never negative, is positive exactly for a positive
      distance, and then multiplies with it to 1. */
  lemma InverseProperties(x: real)
    ensures Inverse(x) >= 0.0
    ensures Inverse(x) > 0.0 <==> x > 0.0
    ensures x > 0.0 ==> Inverse(x) * x == 1.0
  {
    if x > 0.0 {
      assert (1.0 / x) * x == 1.0;
    }
  }

  /** Desirability of each destination j seen from `current`: the inverse of
      d[current][j] when that distance is positive, and 0 in column `excluded`. */
  function DesirabilityRow(d: seq<seq<real>>, current: nat, excluded: nat): (eff: seq<real>)
    requires Square(d) && current < |d|
    ensures |eff| == |d|
  {
    seq(|d|, j requires 0 <= j < |d| => if j != excluded then Inverse(d[current][j]) else 0.0)
  }

  /** Every desirability is non-negative; it is positive exactly for a column
      other than `excluded` at a positive distance, and then it is the
      reciprocal of that distance; the `excluded` column is 0. */
  lemma DesirabilityRowEntries(d: seq<seq<real>>, current: nat, excluded: nat)
    requires Square(d) && current < |d|
    ensures var eff := DesirabilityRow(d, current, excluded);
      && (forall j :: 0 <= j < |d| ==> eff[j] >= 0.0)
      && (excluded < |d| ==> eff[excluded] == 0.0)
      && (forall j :: 0 <= j < |d| ==> (eff[j] > 0.0 <==> j != excluded && d[current][j] > 0.0))
      && (forall j :: 0 <= j < |d| && eff[j] > 0.0 ==> eff[j] * d[current][j] == 1.0)
  {
    var eff := DesirabilityRow(d, current, excluded);
    forall j | 0 <= j < |d|
      ensures eff[j] >= 0.0
      ensures eff[j] > 0.0 <==> j != excluded && d[current][j] > 0.0
      ensures eff[j] > 0.0 ==> eff[j] * d[current][j] == 1.0
    {
      InverseProperties(d[current][j]);
    }
  }

  /** The score of each candidate: 0 for a visited station, otherwise
      eff[i]^alpha * trail[i]^beta. */
  function Weights(eff: seq<real>, trail: seq<real>, visited: seq<nat>, alpha: nat, beta: nat): (w: seq<real>)
    requires |trail| == |eff|
    ensures |w| == |eff|
  {
    seq(|eff|, i requires 0 <= i < |eff| =>
      if i in visited then 0.0 else Pow(eff[i], alpha) * Pow(trail[i], beta))
  }

  /** Visited stations score 0; and scores are never negative when the
      desirabilities are not and either the trail is not negative or its
      exponent is even. */
  lemma WeightsAreScores(eff: seq<real>, trail: seq<real>, visited: seq<nat>, alpha: nat, beta: nat)
    requires |trail| == |eff|
    requires forall i :: 0 <= i < |eff| ==> eff[i] >= 0.0
    requires beta % 2 == 0 || forall i :: 0 <= i < |trail| ==> trail[i] >= 0.0
    ensures Scores(Weights(eff, trail, visited, alpha, beta), visited)
  {
    var w := Weights(eff, trail, visited, alpha, beta);
    forall i | 0 <= i < |eff|
      ensures w[i] >= 0.0
    {
      if i !in visited {
        PowNonNegative(eff[i], alpha);
        PowNonNegative(trail[i], beta);
        assert w[i] == Pow(eff[i], alpha) * Pow(trail[i], beta);
      }
    }
  }

  /** An unvisited station with positive desirability and a positive (or, for
      an even exponent, non-zero) trail gets a positive score. */
  lemma WeightPositive(eff: seq<real>, trail: seq<real>, visited: seq<nat>, alpha: nat, beta: nat, i: nat)
    requires |trail| == |eff| && i < |eff| && i !in visited
    requires eff[i] > 0.0
    requires trail[i] > 0.0 || (trail[i] != 0.0 && beta % 2 == 0)
    ensures Weights(eff, trail, visited, alpha, beta)[i] > 0.0
  {
    PowPositive(eff[i], alpha);
    PowPositive(trail[i], beta);
  }

  /** The sum of a vector, added left to right. */
  function Sum(s: seq<real>): real {
    if s == [] then 0.0 else Sum(s[..|s| - 1]) + s[|s| - 1]
  }

  lemma {:induction false} SumNonNegative(s: seq<real>)
    requires forall i :: 0 <= i < |s| ==> s[i] >= 0.0
    ensures Sum(s) >= 0.0
  {
    if s != [] {
      SumNonNegative(s[..|s| - 1]);
    }
  }

  /** A non-negative vector with one positive entry has a positive sum. */
  lemma {:induction false} SumPositive(s: seq<real>, i: nat)
    requires forall j :: 0 <= j < |s| ==> s[j] >= 0.0
    requires i < |s| && s[i] > 0.0
    ensures Sum(s) > 0.0
  {
    var init := s[..|s| - 1];
    if i == |s| - 1 {
      SumNonNegative(init);
    } else {
      SumPositive(init, i);
    }
  }

  /** A non-negative vector whose sum is not positive is all zeros. */
  lemma ZeroSumAllZero(s: seq<real>)
    requires forall i :: 0 <= i < |s| ==> s[i] >= 0.0
    requires Sum(s) <= 0.0
    ensures forall i :: 0 <= i < |s| ==> s[i] == 0.0
  {
    forall i | 0 <= i < |s|
      ensures s[i] == 0.0
    {
      if s[i] > 0.0 {
        SumPositive(s, i);
      }
    }
  }

  /** An all-zero vector sums to zero. */
  lemma {:induction false} SumOfZeros(s: seq<real>)
    requires forall i :: 0 <= i < |s| ==> s[i] == 0.0
    ensures Sum(s) == 0.0
  {
    if s != [] {
      SumOfZeros(s[..|s| - 1]);
    }
  }

  function Zeros(n: nat): (z: seq<real>)
    ensures |z| == n && forall i :: 0 <= i < n ==> z[i] == 0.0
  {
    seq(n, _ => 0.0)
  }

  /** Each entry divided by t. */
  function Divided(s: seq<real>, t: real): (q: seq<real>)
    requires t != 0.0
    ensures |q| == |s|
  {
    seq(|s|, i requires 0 <= i < |s| => s[i] / t)
  }

  /** Dividing by a positive number keeps the sign of every entry. */
  lemma DividedKeepsSign(s: seq<real>, t: real)
    requires t > 0.0
    ensures forall i :: 0 <= i < |s| ==> (Divided(s, t)[i] > 0.0 <==> s[i] > 0.0)
    ensures forall i :: 0 <= i < |s| ==> (Divided(s, t)[i] >= 0.0 <==> s[i] >= 0.0)
  {
    forall i | 0 <= i < |s|
      ensures Divided(s, t)[i] > 0.0 <==> s[i] > 0.0
      ensures Divided(s, t)[i] >= 0.0 <==> s[i] >= 0.0
    {
      var q := s[i] / t;
      assert q * t == s[i];
      if q > 0.0 {
        assert q * t > 0.0;
      }
      if s[i] > 0.0 && q <= 0.0 {
        assert (-q) * t >= 0.0;
      }
    }
  }

  /** Dividing every entry by t divides the sum by t. */
  lemma {:induction false} SumDivided(s: seq<real>, t: real)
    requires t != 0.0
    ensures Sum(Divided(s, t)) == Sum(s) / t
  {
    if s != [] {
      var init := s[..|s| - 1];
      SumDivided(init, t);
      assert Divided(s, t)[..|s| - 1] == Divided(init, t);
      assert Sum(init) / t + s[|s| - 1] / t == (Sum(init) + s[|s| - 1]) / t;
    }
  }

  /** The weights scaled to a distribution: non-negative weights with a
      positive total become a vector of shares that sums to 1. */
  function Normalized(w: seq<real>): (p: seq<real>)
    requires Sum(w) > 0.0
    ensures |p| == |w|
  {
    Divided(w, Sum(w))
  }

  /** The shares sum to 1, and each share has the sign of its weight. */
  lemma NormalizedShares(w: seq<real>)
    requires Sum(w) > 0.0
    ensures var p := Normalized(w);
      && Sum(p) == 1.0
      && (forall i :: 0 <= i < |w| ==> (p[i] > 0.0 <==> w[i] > 0.0))
      && (forall i :: 0 <= i < |w| ==> (p[i] >= 0.0 <==> w[i] >= 0.0))
  {
    var total := Sum(w);
    assert total / total == 1.0;
    SumDivided(w, total);
    DividedKeepsSign(w, total);
  }

  /** The console script's normalisation: shares when the total is positive,
      otherwise all zeros. */
  function NormalizedOrZeros(w: seq<real>): (p: seq<real>)
    ensures |p| == |w|
  {
    if Sum(w) > 0.0 then Normalized(w) else Zeros(|w|)
  }

  /** The console script's shares sum to 1 when the total is positive and
      are all 0 otherwise. */
  lemma NormalizedOrZerosShares(w: seq<real>)
    ensures var p := NormalizedOrZeros(w);
      && (Sum(w) > 0.0 ==> Sum(p) == 1.0)
      && (Sum(w) <= 0.0 ==> forall i :: 0 <= i < |p| ==> p[i] == 0.0)
  {
    if Sum(w) > 0.0 {
      NormalizedShares(w);
    }
  }

  /** The web app's normalisation: shares when the total is positive,
      otherwise the weights themselves. */
  function NormalizedOrSelf(w: seq<real>): (p: seq<real>)
    ensures |p| == |w|
  {
    if Sum(w) > 0.0 then Normalized(w) else w
  }

  /** The web app's shares sum to 1 when the total is positive; otherwise
      they are the weights, which for non-negative weights are all 0. */
  lemma NormalizedOrSelfShares(w: seq<real>)
    ensures var p := NormalizedOrSelf(w);
      && (Sum(w) > 0.0 ==> Sum(p) == 1.0)
      && (Sum(w) <= 0.0 ==> p == w)
      && (Sum(w) <= 0.0 && (forall i :: 0 <= i < |w| ==> w[i] >= 0.0) ==> forall i :: 0 <= i < |p| ==> p[i] == 0.0)
  {
    if Sum(w) > 0.0 {
      NormalizedShares(w);
    } else if forall i :: 0 <= i < |w| ==> w[i] >= 0.0 {
      ZeroSumAllZero(w);
    }
  }

  /** For non-negative weights the two normalisations coincide. */
  lemma NormalizedVariantsAgree(w: seq<real>)
    requires forall i :: 0 <= i < |w| ==> w[i] >= 0.0
    ensures NormalizedOrZeros(w) == NormalizedOrSelf(w)
  {
    if Sum(w) <= 0.0 {
      ZeroSumAllZero(w);
    }
  }

  /** Running totals (numpy's cumsum): the first entry, then each total the
      previous one plus the next entry, so the last is the whole sum. */
  function Cumulative(s: seq<real>): (c: seq<real>)
    ensures |c| == |s|
  {
    if s == [] then []
    else
      var totals := Cumulative(s[..|s| - 1]);
      totals + [(if totals == [] then 0.0 else totals[|totals| - 1]) + s[|s| - 1]]
  }

  /** The running totals begin with the first entry, end with the whole sum,
      and each is the previous one plus the next entry. */
  lemma {:induction false} CumulativeSteps(s: seq<real>)
    ensures var c := Cumulative(s);
      && (|s| > 0 ==> c[0] == s[0] && c[|s| - 1] == Sum(s))
      && (forall k {:trigger s[k]} :: 0 < k < |s| ==> c[k] == c[k - 1] + s[k])
  {
    if s != [] {
      var init := s[..|s| - 1];
      CumulativeSteps(init);
      assert forall k :: 0 <= k < |init| ==> init[k] == s[k];
    }
  }

  /** Entry k of the running totals is the sum of entries 0 .. k. */
  lemma {:induction false} CumulativeIsPrefixSum(s: seq<real>, k: nat)
    requires k < |s|
    ensures Cumulative(s)[k] == Sum(s[..k + 1])
  {
    CumulativeSteps(s);
    assert s[..k + 1][..k] == s[..k];
    if k > 0 {
      CumulativeIsPrefixSum(s, k - 1);
      assert s[k] == s[..k + 1][k];
    }
  }

  /** Running totals of non-negative entries never decrease. */
  lemma {:induction false} CumulativeMonotone(s: seq<real>, i: nat, j: nat)
    requires forall k :: 0 <= k < |s| ==> s[k] >= 0.0
    requires i <= j < |s|
    ensures Cumulative(s)[i] <= Cumulative(s)[j]
    decreases j - i
  {
    if i < j {
      CumulativeMonotone(s, i, j - 1);
      CumulativeSteps(s);
      assert Cumulative(s)[j] == Cumulative(s)[j - 1] + s[j];
    }
  }

  /** Station i may be chosen for draw r: it is unvisited and its running total reaches r. */
  predicate Selectable(cum: seq<real>, visited: seq<nat>, r: real, i: int) {
    0 <= i < |cum| && i !in visited && r <= cum[i]
  }

  /** The first selectable station at index `from` or later, or -1. */
  function PickFrom(cum: seq<real>, visited: seq<nat>, r: real, from: nat): (k: int)
    ensures k == -1 || (from <= k && Selectable(cum, visited, r, k))
    ensures k == -1 <==> forall i :: from <= i < |cum| ==> !Selectable(cum, visited, r, i)
    ensures k != -1 ==> forall i :: from <= i < k ==> !Selectable(cum, visited, r, i)
    decreases |cum| - from
  {
    if from >= |cum| then -1
    else if Selectable(cum, visited, r, from) then from
    else PickFrom(cum, visited, r, from + 1)
  }

  /** The station the roulette wheel gives for draw r: the smallest unvisited
      index whose running total reaches r, or -1 when there is none. */
  function Pick(cum: seq<real>, visited: seq<nat>, r: real): (k: int)
    ensures k == -1 <==> forall i :: 0 <= i < |cum| ==> !Selectable(cum, visited, r, i)
    ensures k != -1 ==> Selectable(cum, visited, r, k)
    ensures k != -1 ==> forall i :: 0 <= i < k ==> !Selectable(cum, visited, r, i)
  {
    PickFrom(cum, visited, r, 0)
  }

  /** Scans the running totals in ascending order and returns the first
      unvisited station whose total reaches the draw r, or -1. */
  method SelectNextStation(cum: seq<real>, visited: seq<nat>, r: real) returns (k: int)
    ensures k == Pick(cum, visited, r)
    ensures k == -1 || (0 <= k < |cum| && k !in visited && r <= cum[k])
  {
    var i := 0;
    while i < |cum|
      invariant 0 <= i <= |cum|
      invariant forall j :: 0 <= j < i ==> !Selectable(cum, visited, r, j)
    {
      if i !in visited && r <= cum[i] {
        assert Selectable(cum, visited, r, i);
        ghost var first := Pick(cum, visited, r);
        assert first != -1 && !(first < i) && !(i < first);
        return i;
      }
      i := i + 1;
    }
    return -1;
  }

  /** The first index from `from` on where the running totals reach r. */
  lemma {:induction false} FirstReaching(c: seq<real>, r: real, from: nat, hi: nat) returns (k: nat)
    requires from <= hi < |c| && r <= c[hi]
    ensures from <= k <= hi && r <= c[k]
    ensures forall j :: from <= j < k ==> c[j] < r
    decreases hi - from
  {
    if r <= c[from] {
      k := from;
    } else {
      k := FirstReaching(c, r, from + 1, hi);
    }
  }

  /** Scores of a selection step: non-negative, and zero for every visited station. */
  predicate Scores(w: seq<real>, visited: seq<nat>) {
    && (forall i :: 0 <= i < |w| ==> w[i] >= 0.0)
    && (forall i :: 0 <= i < |w| && i in visited ==> w[i] == 0.0)
  }

  /** The wheel picks an unvisited station whose running total reaches r
      when no earlier running total does. */
  lemma PickIsFirstReaching(c: seq<real>, visited: seq<nat>, r: real, k0: nat)
    requires Selectable(c, visited, r, k0)
    requires forall j :: 0 <= j < k0 ==> c[j] < r
    ensures Pick(c, visited, r) == k0
  {
    var k := Pick(c, visited, r);
    assert k != -1;
  }

  /** With a positive total and a positive draw, the first index at which the
      distribution reaches r carries a positive score, so it is unvisited and
      is exactly the station the wheel picks. */
  lemma FirstReachingIsPicked(w: seq<real>, visited: seq<nat>, r: real, k0: nat)
    requires Scores(w, visited) && Sum(w) > 0.0 && r > 0.0
    requires k0 < |w| && r <= Cumulative(Normalized(w))[k0]
    requires forall j :: 0 <= j < k0 ==> Cumulative(Normalized(w))[j] < r
    ensures w[k0] > 0.0
    ensures Pick(Cumulative(Normalized(w)), visited, r) == k0
  {
    var p := Normalized(w);
    var c := Cumulative(p);
    NormalizedShares(w);
    CumulativeSteps(p);
    assert p[k0] > 0.0 by {
      if k0 > 0 {
        assert c[k0] == c[k0 - 1] + p[k0];
        assert c[k0 - 1] < r;
      }
    }
    PickIsFirstReaching(c, visited, r, k0);
  }

  /** A positive draw never picks a station with score 0: the wheel gives -1
      or a station of positive score. */
  lemma PickedHasWeight(w: seq<real>, visited: seq<nat>, r: real, p: seq<real>)
    requires Scores(w, visited) && r > 0.0
    requires p == NormalizedOrZeros(w) || p == NormalizedOrSelf(w)
    ensures var k := Pick(Cumulative(p), visited, r); k == -1 || (0 <= k < |w| && w[k] > 0.0)
  {
    var c := Cumulative(p);
    var k := Pick(c, visited, r);
    NormalizedOrZerosShares(w);
    NormalizedOrSelfShares(w);
    if Sum(w) <= 0.0 {
      forall i | 0 <= i < |c|
        ensures !Selectable(c, visited, r, i)
      {
        SumOfZeros(p[..i + 1]);
        CumulativeIsPrefixSum(p, i);
      }
    } else if k != -1 {
      var k0 := FirstReaching(c, r, 0, k);
      FirstReachingIsPicked(w, visited, r, k0);
    }
  }

  /** With a positive total and a draw in (0, 1], the wheel always picks a
      station, and the station it picks is unvisited and has a positive score. */
  lemma SelectionGuarantee(w: seq<real>, visited: seq<nat>, r: real, p: seq<real>)
    requires Scores(w, visited) && Sum(w) > 0.0 && 0.0 < r <= 1.0
    requires p == NormalizedOrZeros(w) || p == NormalizedOrSelf(w)
    ensures var k := Pick(Cumulative(p), visited, r); 0 <= k < |w| && k !in visited && w[k] > 0.0
  {
    var c := Cumulative(p);
    assert |w| > 0;
    NormalizedOrZerosShares(w);
    NormalizedOrSelfShares(w);
    CumulativeSteps(p);
    assert c[|w| - 1] == 1.0;
    var k0 := FirstReaching(c, r, 0, |w| - 1);
    FirstReachingIsPicked(w, visited, r, k0);
  }

  /** With a positive total and a draw in [0, 1] the wheel always picks a
      station. A draw of 0 picks the first unvisited station, whose running
      total is never negative. */
  lemma NeverStuckWithPositiveTotal(w: seq<real>, visited: seq<nat>, r: real, p: seq<real>)
    requires Scores(w, visited) && Sum(w) > 0.0 && 0.0 <= r <= 1.0
    requires p == NormalizedOrZeros(w) || p == NormalizedOrSelf(w)
    ensures Pick(Cumulative(p), visited, r) != -1
  {
    if r > 0.0 {
      SelectionGuarantee(w, visited, r, p);
    } else {
      var i :| 0 <= i < |w| && w[i] != 0.0 by {
        if forall i :: 0 <= i < |w| ==> w[i] == 0.0 {
          SumOfZeros(w);
        }
      }
      NormalizedShares(w);
      assert p == Normalized(w);
      SumNonNegative(p[..i + 1]);
      CumulativeIsPrefixSum(p, i);
      assert Selectable(Cumulative(p), visited, r, i);
    }
  }
}

