/** The console script: an n-by-n efficiency matrix per step, weights read
    from row 0 of the efficiency and trail matrices, a trail matrix that the
    update changes in place, and a run that halves the trail before every
    ant's deposit except the second ant's. */
module Aco {
  import opened Stations
  import opened Roulette
  import opened Trails
  import opened Tours

  /** The efficiency matrix for an ant at `current`: entry (i, j) is the
      inverse of d[current][j] when i != j and that distance is positive, and
      0 otherwise. Every row is built from the current station's distances. */
  method EfficiencyMatrix(n: nat, d: seq<seq<real>>, current: nat) returns (eff: array2<real>)
    requires Square(d) && |d| == n && current < n
    ensures fresh(eff) && eff.Length0 == n && eff.Length1 == n
    ensures forall i, j :: 0 <= i < n && 0 <= j < n ==>
      eff[i, j] == if i != j && d[current][j] > 0.0 then 1.0 / d[current][j] else 0.0
    ensures forall i :: 0 <= i < n ==> Row(eff, i) == DesirabilityRow(d, current, i)
  {
    eff := new real[n, n]((_, _) => 0.0);
    for i := 0 to n
      invariant forall i', j :: 0 <= i' < i && 0 <= j < n ==>
        eff[i', j] == if i' != j && d[current][j] > 0.0 then 1.0 / d[current][j] else 0.0
      invariant forall i', j :: i <= i' < n && 0 <= j < n ==> eff[i', j] == 0.0
    {
      for j := 0 to n
        invariant forall i', j' :: 0 <= i' < i && 0 <= j' < n ==>
          eff[i', j'] == if i' != j' && d[current][j'] > 0.0 then 1.0 / d[current][j'] else 0.0
        invariant forall j' :: 0 <= j' < j ==>
          eff[i, j'] == if i != j' && d[current][j'] > 0.0 then 1.0 / d[current][j'] else 0.0
        invariant forall i', j' :: i <= i' < n && 0 <= j' < n && (i' > i || j' >= j) ==> eff[i', j'] == 0.0
      {
        if i != j && d[current][j] > 0.0 {
          eff[i, j] := 1.0 / d[current][j];
        }
      }
    }
    forall i | 0 <= i < n
      ensures Row(eff, i) == DesirabilityRow(d, current, i)
    {
      var row := DesirabilityRow(d, current, i);
      assert forall j :: 0 <= j < n ==> Row(eff, i)[j] == row[j];
    }
  }

  /** The initial trail matrix, all ones. */
  method InitializePheromoneMatrix(n: nat) returns (m: array2<real>)
    ensures fresh(m) && m.Length0 == n && m.Length1 == n
    ensures Snapshot(m) == Ones(n)
  {
    m := new real[n, n]((_, _) => 1.0);
    SnapshotOf(m, Ones(n));
  }

  /** The scores of one step, from row 0 of both matrices:
      eff[0][i]^2 * pher[0][i] for an unvisited station i, 0 for a visited one. */
  method ActualProbabilities(eff: array2<real>, pher: array2<real>, visited: seq<nat>) returns (actual: array<real>)
    requires eff.Length0 == eff.Length1 && eff.Length0 > 0
    requires pher.Length0 == eff.Length0 && pher.Length1 == eff.Length0
    ensures fresh(actual)
    ensures actual[..] == Weights(Row(eff, 0), Row(pher, 0), visited, Alpha(Console), Beta(Console))
  {
    var n := eff.Length0;
    ghost var w := Weights(Row(eff, 0), Row(pher, 0), visited, Alpha(Console), Beta(Console));
    actual := new real[n](_ => 0.0);
    for i := 0 to n
      invariant forall j :: 0 <= j < i ==> actual[j] == w[j]
      invariant forall j :: i <= j < n ==> actual[j] == 0.0
    {
      if i !in visited {
        actual[i] := Pow(eff[0, i], Alpha(Console)) * Pow(pher[0, i], Beta(Console));
      }
    }
    assert actual[..] == w;
  }

  /** The running totals of the shares: the first share, then each total the
      previous one plus the next share. */
  method CumulativeProbabilities(normalized: array<real>) returns (cumulative: array<real>)
    requires normalized.Length > 0
    ensures fresh(cumulative)
    ensures cumulative[..] == Cumulative(normalized[..])
  {
    var n := normalized.Length;
    ghost var c := Cumulative(normalized[..]);
    CumulativeSteps(normalized[..]);
    cumulative := new real[n](_ => 0.0);
    cumulative[0] := normalized[0];
    for i := 1 to n
      invariant forall j :: 0 <= j < i ==> cumulative[j] == c[j]
    {
      assert c[i] == c[i - 1] + normalized[..][i];
      cumulative[i] := cumulative[i - 1] + normalized[i];
    }
    assert cumulative[..] == c;
  }

  /** The scores, shares and running totals of one step. The shares are the
      scores over their total when the total is positive and all zeros
      otherwise. */
  method ProbabilityMatrix(eff: array2<real>, pher: array2<real>, visited: seq<nat>)
    returns (actual: array<real>, normalized: array<real>, cumulative: array<real>)
    requires eff.Length0 == eff.Length1 && eff.Length0 > 0
    requires pher.Length0 == eff.Length0 && pher.Length1 == eff.Length0
    ensures fresh(actual) && fresh(normalized) && fresh(cumulative)
    ensures actual[..] == Weights(Row(eff, 0), Row(pher, 0), visited, Alpha(Console), Beta(Console))
    ensures normalized[..] == NormalizedOrZeros(actual[..])
    ensures cumulative[..] == Cumulative(normalized[..])
  {
    var n := eff.Length0;
    actual := ActualProbabilities(eff, pher, visited);
    var scores := actual[..];
    var total := Sum(scores);
    if total > 0.0 {
      normalized := new real[n](j requires 0 <= j < n => scores[j] / total);
      assert normalized[..] == Normalized(scores);
    } else {
      normalized := new real[n](_ => 0.0);
      assert normalized[..] == Zeros(n);
    }
    cumulative := CumulativeProbabilities(normalized);
  }

  /** Adds the route's deposits to the trail matrix in place and hands the
      same matrix back. */
  method UpdateAfterAnt(m: array2<real>, route: seq<nat>, deposit: real) returns (updated: array2<real>)
    requires m.Length0 == m.Length1 && InRange(route, m.Length0)
    modifies m
    ensures updated == m
    ensures forall a, b :: 0 <= a < m.Length0 && 0 <= b < m.Length1 ==>
      m[a, b] == old(m[a, b]) + Gain(Occurrences(route, a, b), deposit)
  {
    AddDeposits(m, route, deposit);
    updated := m;
  }

  /** One step of a tour: the efficiency matrix for the current station, the
      step's distribution, and the wheel's pick for the draw r. */
  method NextStation(n: nat, d: seq<seq<real>>, pher: array2<real>, current: nat, visited: seq<nat>, r: real)
    returns (next: int)
    requires Square(d) && |d| == n && current < n
    requires pher.Length0 == n && pher.Length1 == n
    ensures next == Pick(StepDistribution(Console, d, Snapshot(pher), current, visited), visited, r)
  {
    var eff := EfficiencyMatrix(n, d, current);
    var actual, normalized, cumulative := ProbabilityMatrix(eff, pher, visited);
    assert cumulative[..] == StepDistribution(Console, d, Snapshot(pher), current, visited);
    next := SelectNextStation(cumulative[..], visited, r);
  }

  /** One step of a walk: the wheel's pick after the stations visited so
      far. A pick extends the walk by an unvisited station; -1 means the ant
      is stuck. */
  method WalkStep(n: nat, d: seq<seq<real>>, pher: array2<real>, draws: seq<real>, route: seq<nat>)
    returns (next: int)
    requires Square(d) && |d| == n
    requires pher.Length0 == n && pher.Length1 == n
    requires 1 <= |route| && |route| - 1 < |draws| && InRange(route, n)
    requires PicksSoFar(Console, d, Snapshot(pher), draws, route)
    ensures next == -1 ==> StuckAfter(Console, d, Snapshot(pher), draws, route)
    ensures next != -1 ==> 0 <= next < n && next !in route
    ensures next != -1 ==> PicksSoFar(Console, d, Snapshot(pher), draws, route + [next])
  {
    next := NextStation(n, d, pher, route[|route| - 1], route, draws[|route| - 1]);
    if next != -1 {
      PicksExtend(Console, d, Snapshot(pher), draws, route, next);
    }
  }

  /** The walk of one ant from `start` before it returns: steps until all n
      stations are visited or the wheel gives -1, with the distance covered. */
  method Walk(n: nat, d: seq<seq<real>>, pher: array2<real>, start: nat, draws: seq<real>)
    returns (visited: seq<nat>, total: real)
    requires Square(d) && |d| == n && start < n
    requires pher.Length0 == n && pher.Length1 == n
    requires n <= |draws| + 1
    ensures 1 <= |visited| <= n && visited[0] == start
    ensures InRange(visited, n) && Distinct(visited)
    ensures PicksSoFar(Console, d, Snapshot(pher), draws, visited)
    ensures |visited| < n ==> StuckAfter(Console, d, Snapshot(pher), draws, visited)
    ensures total == PathDistance(d, visited)
  {
    visited := [start];
    total := 0.0;
    while |visited| < n
      invariant 1 <= |visited| <= n && visited[0] == start
      invariant InRange(visited, n) && Distinct(visited)
      invariant PicksSoFar(Console, d, Snapshot(pher), draws, visited)
      invariant total == PathDistance(d, visited)
      decreases n - |visited|
    {
      var next := WalkStep(n, d, pher, draws, visited);
      if next == -1 {
        return;
      }
      assert (visited + [next])[..|visited|] == visited;
      total := total + d[visited[|visited| - 1]][next];
      visited := visited + [next];
    }
  }

  /** One ant's tour from `start`: step k scans the running totals for draw
      k; the tour ends early when the wheel gives -1, and always closes with
      the edge back to the start. The deposit is 1 / distance, absent when
      the distance is 0. */
  method AntTravel(n: nat, d: seq<seq<real>>, pher: array2<real>, start: nat, labels: string, draws: seq<real>)
    returns (route: seq<nat>, labelRoute: string, total: real, deposit: Option<real>)
    requires Square(d) && |d| == n && start < n && |labels| == n
    requires pher.Length0 == n && pher.Length1 == n
    requires n <= |draws| + 1
    ensures IsTour(Console, d, Snapshot(pher), start, draws, route)
    ensures total == PathDistance(d, route)
    ensures labelRoute == LabelRoute(labels, route)
    ensures deposit == if total != 0.0 then Some(1.0 / total) else None
  {
    var visited, walked := Walk(n, d, pher, start, draws);
    TourCloses(Console, d, Snapshot(pher), start, draws, visited);
    route := visited + [start];
    assert route[..|visited|] == visited;
    total := walked + d[visited[|visited| - 1]][start];
    labelRoute := LabelRoute(labels, route);
    if total != 0.0 {
      deposit := Some(1.0 / total);
    } else {
      deposit := None;
    }
  }

  /** The trail after ant `ant`: the route's deposits added to half the
      trail, or, for the second ant (index 1), to the trail itself, which is
      then updated in place. */
  method NextTrail(pher: array2<real>, ant: nat, route: seq<nat>, deposit: real) returns (updated: array2<real>)
    requires pher.Length0 == pher.Length1 && InRange(route, pher.Length0)
    modifies pher
    ensures ant == 1 ==> updated == pher
    ensures ant != 1 ==> fresh(updated) && unchanged(pher)
    ensures updated.Length0 == pher.Length0 && updated.Length1 == pher.Length1
    ensures Snapshot(updated) == Deposited(old(Snapshot(pher)), route, deposit, Halves(HalveAllButSecond, ant))
  {
    var n := pher.Length0;
    ghost var before := Snapshot(pher);
    var halved := new real[n, n]((i, j) requires 0 <= i < n && 0 <= j < n reads pher => 0.5 * pher[i, j]);
    if ant == 1 {
      updated := UpdateAfterAnt(pher, route, deposit);
    } else {
      updated := UpdateAfterAnt(halved, route, deposit);
    }
    SnapshotOf(updated, Deposited(before, route, deposit, Halves(HalveAllButSecond, ant)));
  }

  /** The colony run: every ant travels on the current trail; the trail is
      then the ant's deposits added to half the previous trail, except after
      the second ant (index 1), whose deposits go onto the previous trail
      itself. The run stops at an ant whose tour has distance 0. */
  method RunAnts(nAnts: nat, n: nat, d: seq<seq<real>>, start: nat, labels: string, draws: seq<seq<real>>)
    returns (results: seq<AntResult>, complete: bool)
    requires Square(d) && |d| == n && start < n && |labels| == n
    requires |draws| >= nAnts && forall k :: 0 <= k < nAnts ==> n <= |draws[k]| + 1
    ensures |results| <= nAnts && (complete <==> |results| == nAnts)
    ensures Recorded(Console, HalveAllButSecond, d, start, labels, draws, results)
    ensures !complete ==> StoppedAtZeroDistance(Console, HalveAllButSecond, d, start, draws, results)
  {
    var pher := InitializePheromoneMatrix(n);
    results := [];
    for ant := 0 to nAnts
      invariant |results| == ant
      invariant fresh(pher) && pher.Length0 == n && pher.Length1 == n
      invariant Snapshot(pher) == TrailAfter(HalveAllButSecond, Ones(n), results)
      invariant Recorded(Console, HalveAllButSecond, d, start, labels, draws, results)
    {
      var route, labelRoute, total, deposit := AntTravel(n, d, pher, start, labels, draws[ant]);
      if deposit.None? {
        assert IsTour(Console, d, TrailAfter(HalveAllButSecond, Ones(n), results), start, draws[|results|], route);
        return results, false;
      }
      pher := NextTrail(pher, ant, route, deposit.value);
      var result := AntResult(route, labelRoute, total, deposit.value, Snapshot(pher));
      assert (results + [result])[..|results|] == results;
      assert result.trail == TrailAfter(HalveAllButSecond, Ones(n), results + [result]);
      RecordedExtend(Console, HalveAllButSecond, d, start, labels, draws, results, result);
      results := results + [result];
    }
    complete := true;
  }

  /** In the console script a positive draw never picks station 0: its
      efficiency entry eff[0][0] is always 0, so its score is 0. */
  lemma StationZeroNeverPicked(d: seq<seq<real>>, trail: seq<seq<real>>, current: nat, visited: seq<nat>, r: real)
    requires Square(d) && Square(trail) && |trail| == |d| && current < |d|
    requires forall j :: 0 <= j < |d| ==> trail[0][j] >= 0.0
    requires r > 0.0
    ensures Pick(StepDistribution(Console, d, trail, current, visited), visited, r) != 0
  {
    var eff := DesirabilityRow(d, current, 0);
    var w := StepWeights(Console, d, trail, current, visited);
    DesirabilityRowEntries(d, current, 0);
    WeightsAreScores(eff, trail[0], visited, Alpha(Console), Beta(Console));
    assert w[0] == 0.0 by {
      assert Pow(eff[0], 2) == 0.0 * Pow(eff[0], 1);
    }
    PickedHasWeight(w, visited, r, NormalizedOrZeros(w));
  }

  /** Consequently an ant of the console script that starts anywhere but
      station 0 and draws only positive numbers never visits station 0, and
      so never completes a tour. (A draw of exactly 0 would pick station 0,
      whose running total 0 reaches it.) */
  lemma NeverReachesStationZero(d: seq<seq<real>>, trail: seq<seq<real>>, start: nat, draws: seq<real>, route: seq<nat>)
    requires Square(d) && Square(trail) && |trail| == |d| && start < |d|
    requires IsTour(Console, d, trail, start, draws, route)
    requires start != 0
    requires forall j :: 0 <= j < |d| ==> trail[0][j] >= 0.0
    requires forall k :: 0 <= k < |draws| ==> draws[k] > 0.0
    ensures 0 !in route
    ensures |route| <= |d|
  {
    forall k | 0 <= k < |route|
      ensures route[k] != 0
    {
      if 0 < k < |route| - 1 {
        assert PickedAt(Console, d, trail, draws, route, k);
        StationZeroNeverPicked(d, trail, route[k - 1], route[..k], draws[k - 1]);
      }
    }
    DistinctBound(route[..|route| - 1], |d|, {0});
  }

  /** An ant that has visited fewer than n stations, among them station 0 and
      its current one, is never stuck when every off-diagonal distance and
      row 0 of the trail are positive. */
  lemma NeverStuckFromStationZero(d: seq<seq<real>>, trail: seq<seq<real>>, current: nat, visited: seq<nat>, r: real)
    requires Square(d) && Square(trail) && |trail| == |d| && current < |d|
    requires Distinct(visited) && InRange(visited, |d|) && 0 in visited && current in visited
    requires forall i, j :: 0 <= i < |d| && 0 <= j < |d| && i != j ==> d[i][j] > 0.0
    requires forall j :: 0 <= j < |d| ==> trail[0][j] > 0.0
    requires 0.0 <= r <= 1.0
    ensures |visited| < |d| ==> Pick(StepDistribution(Console, d, trail, current, visited), visited, r) != -1
  {
    if |visited| < |d| {
      var j := MissingStation(visited, |d|);
      var eff := DesirabilityRow(d, current, 0);
      var w := StepWeights(Console, d, trail, current, visited);
      DesirabilityRowEntries(d, current, 0);
      WeightsAreScores(eff, trail[0], visited, Alpha(Console), Beta(Console));
      WeightPositive(eff, trail[0], visited, Alpha(Console), Beta(Console), j);
      SumPositive(w, j);
      NeverStuckWithPositiveTotal(w, visited, r, NormalizedOrZeros(w));
    }
  }

  /** A walk from station 0 that stops only when stuck has visited all n
      stations, under the assumptions of the lemma above. */
  lemma WalkFromStationZeroIsFull(d: seq<seq<real>>, trail: seq<seq<real>>, draws: seq<real>, visited: seq<nat>)
    requires Square(d) && Square(trail) && |trail| == |d|
    requires 1 <= |visited| <= |d| && visited[0] == 0
    requires InRange(visited, |d|) && Distinct(visited)
    requires |visited| < |d| ==> StuckAfter(Console, d, trail, draws, visited)
    requires forall i, j :: 0 <= i < |d| && 0 <= j < |d| && i != j ==> d[i][j] > 0.0
    requires forall j :: 0 <= j < |d| ==> trail[0][j] > 0.0
    requires forall k :: 0 <= k < |draws| ==> 0.0 <= draws[k] <= 1.0
    ensures |visited| == |d|
  {
    var last := |visited| - 1;
    if |visited| < |d| {
      NeverStuckFromStationZero(d, trail, visited[last], visited, draws[last]);
    }
  }

  /** From station 0, with positive off-diagonal distances, a positive row 0
      of the trail and draws in [0, 1], the ant visits every station and
      returns: the route has n + 1 entries. */
  lemma FullTourFromStationZero(d: seq<seq<real>>, trail: seq<seq<real>>, draws: seq<real>, route: seq<nat>)
    requires Square(d) && Square(trail) && |trail| == |d| && 0 < |d|
    requires IsTour(Console, d, trail, 0, draws, route)
    requires forall i, j :: 0 <= i < |d| && 0 <= j < |d| && i != j ==> d[i][j] > 0.0
    requires forall j :: 0 <= j < |d| ==> trail[0][j] > 0.0
    requires forall k :: 0 <= k < |draws| ==> 0.0 <= draws[k] <= 1.0
    ensures |route| == |d| + 1
    ensures forall j :: 0 <= j < |d| ==> j in route
  {
    var visited := route[..|route| - 1];
    WalkFromStationZeroIsFull(d, trail, draws, visited);
    AllStations(visited, |d|);
    assert forall j :: j in visited ==> j in route;
  }

  /** In a recorded run of the console script from a station other than 0,
      with non-negative distances and positive draws, no ant ever visits
      station 0, so none visits every station. */
  lemma NoAntCompletesAwayFromStationZero(d: seq<seq<real>>, start: nat, labels: string, draws: seq<seq<real>>,
                                          results: seq<AntResult>)
    requires Square(d) && start < |d| && |labels| == |d| && |results| <= |draws|
    requires start != 0
    requires forall i, j :: 0 <= i < |d| && 0 <= j < |d| ==> d[i][j] >= 0.0
    requires forall k, q :: 0 <= k < |results| && 0 <= q < |draws[k]| ==> draws[k][q] > 0.0
    requires Recorded(Console, HalveAllButSecond, d, start, labels, draws, results)
    ensures forall k :: 0 <= k < |results| ==> 0 !in results[k].route && |results[k].route| <= |d|
  {
    forall k | 0 <= k < |results|
      ensures 0 !in results[k].route && |results[k].route| <= |d|
    {
      var trail := TrailAfter(HalveAllButSecond, Ones(|d|), results[..k]);
      TrailBeforeAntPositive(Console, HalveAllButSecond, d, start, labels, draws, results, k);
      assert AntRecorded(Console, HalveAllButSecond, d, start, labels, draws[k], results[..k], results[k]);
      NeverReachesStationZero(d, trail, start, draws[k], results[k].route);
    }
  }

  /** In a recorded run of the console script from station 0, with
      non-negative distances, positive off-diagonal distances and draws in
      [0, 1], every ant visits every station and returns. */
  lemma EveryAntCompletesFromStationZero(d: seq<seq<real>>, labels: string, draws: seq<seq<real>>,
                                         results: seq<AntResult>)
    requires Square(d) && 0 < |d| && |labels| == |d| && |results| <= |draws|
    requires forall i, j :: 0 <= i < |d| && 0 <= j < |d| ==> d[i][j] >= 0.0
    requires forall i, j :: 0 <= i < |d| && 0 <= j < |d| && i != j ==> d[i][j] > 0.0
    requires forall k, q :: 0 <= k < |results| && 0 <= q < |draws[k]| ==> 0.0 <= draws[k][q] <= 1.0
    requires Recorded(Console, HalveAllButSecond, d, 0, labels, draws, results)
    ensures forall k :: 0 <= k < |results| ==> |results[k].route| == |d| + 1
    ensures forall k, j :: 0 <= k < |results| && 0 <= j < |d| ==> j in results[k].route
  {
    forall k | 0 <= k < |results|
      ensures |results[k].route| == |d| + 1
      ensures forall j :: 0 <= j < |d| ==> j in results[k].route
    {
      var trail := TrailAfter(HalveAllButSecond, Ones(|d|), results[..k]);
      TrailBeforeAntPositive(Console, HalveAllButSecond, d, 0, labels, draws, results, k);
      assert AntRecorded(Console, HalveAllButSecond, d, 0, labels, draws[k], results[..k], results[k]);
      FullTourFromStationZero(d, trail, draws[k], results[k].route);
    }
  }

  /** In the console script an edge that no ant of a run travels ends the run
      at its initial value 1 halved once per ant except the second. */
  lemma UntraversedCellHalvedPerAnt(d: seq<seq<real>>, start: nat, labels: string, draws: seq<seq<real>>,
                                    results: seq<AntResult>, a: nat, b: nat)
    requires Square(d) && start < |d| && |labels| == |d| && 0 < |results| <= |draws|
    requires a < |d| && b < |d|
    requires forall k :: 0 <= k < |results| ==> !Traverses(results[k].route, a, b)
    requires Recorded(Console, HalveAllButSecond, d, start, labels, draws, results)
    ensures results[|results| - 1].trail[a][b] == HalvedTimes(if |results| >= 2 then |results| - 1 else 1, 1.0)
  {
    LastRecordedTrail(Console, HalveAllButSecond, d, start, labels, draws, results);
    UntraversedCellDecays(HalveAllButSecond, Ones(|d|), results, a, b);
    HalvingsOfPolicies(|results|);
  }
}

