/** The web app: a desirability vector per step that excludes the current
    station, scores read from the current row of the trail with both
    exponents 2, raw scores kept when their total is not positive, a trail
    update that copies the matrix and returns the copy, and a run that
    halves the trail only for the first ant. */
module App {
  import opened Stations
  import opened Roulette
  import opened Trails
  import opened Tours

  /** The desirability of each station seen from `current`: the inverse of
      its distance when it is another station at a positive distance, and 0
      otherwise. */
  method Efficiency(current: nat, d: seq<seq<real>>) returns (eff: array<real>)
    requires Square(d) && current < |d|
    ensures fresh(eff)
    ensures eff[..] == DesirabilityRow(d, current, current)
  {
    var n := |d|;
    ghost var row := DesirabilityRow(d, current, current);
    eff := new real[n](_ => 0.0);
    for j := 0 to n
      invariant forall k :: 0 <= k < j ==> eff[k] == row[k]
      invariant forall k :: j <= k < n ==> eff[k] == 0.0
    {
      if j != current && d[current][j] > 0.0 {
        eff[j] := 1.0 / d[current][j];
      }
    }
    assert eff[..] == row;
  }

  /** The shares and running totals of one step from `current`: the score of
      an unvisited station j is eff[j]^2 * trail[current][j]^2, a visited one
      scores 0; the shares are the scores over their total when that total
      is positive and the scores themselves otherwise. The running totals are
      a library call (a cumulative sum), modelled by the function itself. */
  method Probability(current: nat, trail: seq<seq<real>>, d: seq<seq<real>>, visited: seq<nat>)
    returns (normalized: array<real>, cumulative: seq<real>)
    requires Square(d) && Square(trail) && |trail| == |d| && current < |d|
    ensures fresh(normalized)
    ensures normalized[..] == StepNormalized(WebApp, StepWeights(WebApp, d, trail, current, visited))
    ensures cumulative == StepDistribution(WebApp, d, trail, current, visited)
  {
    var n := |d|;
    var eff := Efficiency(current, d);
    ghost var w := StepWeights(WebApp, d, trail, current, visited);
    var actual := new real[n](_ => 0.0);
    for j := 0 to n
      invariant eff[..] == DesirabilityRow(d, current, current)
      invariant forall k :: 0 <= k < j ==> actual[k] == w[k]
      invariant forall k :: j <= k < n ==> actual[k] == 0.0
    {
      if j !in visited {
        actual[j] := Pow(eff[j], Alpha(WebApp)) * Pow(trail[current][j], Beta(WebApp));
      }
    }
    var scores := actual[..];
    assert scores == w;
    var total := Sum(scores);
    if total > 0.0 {
      normalized := new real[n](k requires 0 <= k < n => scores[k] / total);
      assert normalized[..] == Normalized(scores);
    } else {
      normalized := actual;
    }
    cumulative := Cumulative(normalized[..]);
  }

  /** One step of a tour: the step's running totals and the wheel's pick for
      the draw r. */
  method NextStation(current: nat, trail: seq<seq<real>>, d: seq<seq<real>>, visited: seq<nat>, r: real)
    returns (next: int)
    requires Square(d) && Square(trail) && |trail| == |d| && current < |d|
    ensures next == Pick(StepDistribution(WebApp, d, trail, current, visited), visited, r)
  {
    var _, cumulative := Probability(current, trail, d, visited);
    next := SelectNextStation(cumulative, visited, r);
  }

  /** One step of a walk: the wheel's pick after the stations visited so
      far. A pick extends the walk by an unvisited station; -1 means the ant
      is stuck. */
  method WalkStep(d: seq<seq<real>>, trail: seq<seq<real>>, draws: seq<real>, route: seq<nat>)
    returns (next: int)
    requires Square(d) && Square(trail) && |trail| == |d|
    requires 1 <= |route| && |route| - 1 < |draws| && InRange(route, |d|)
    requires PicksSoFar(WebApp, d, trail, draws, route)
    ensures next == -1 ==> StuckAfter(WebApp, d, trail, draws, route)
    ensures next != -1 ==> 0 <= next < |d| && next !in route
    ensures next != -1 ==> PicksSoFar(WebApp, d, trail, draws, route + [next])
  {
    next := NextStation(route[|route| - 1], trail, d, route, draws[|route| - 1]);
    if next != -1 {
      PicksExtend(WebApp, d, trail, draws, route, next);
    }
  }

  /** The walk of one ant from `start` before it returns: steps until all n
      stations are visited or the wheel gives -1, with the distance covered. */
  method Walk(n: nat, d: seq<seq<real>>, trail: seq<seq<real>>, start: nat, draws: seq<real>)
    returns (visited: seq<nat>, total: real)
    requires Square(d) && |d| == n && start < n
    requires Square(trail) && |trail| == n
    requires n <= |draws| + 1
    ensures 1 <= |visited| <= n && visited[0] == start
    ensures InRange(visited, n) && Distinct(visited)
    ensures PicksSoFar(WebApp, d, trail, draws, visited)
    ensures |visited| < n ==> StuckAfter(WebApp, d, trail, draws, visited)
    ensures total == PathDistance(d, visited)
  {
    visited := [start];
    total := 0.0;
    while |visited| < n
      invariant 1 <= |visited| <= n && visited[0] == start
      invariant InRange(visited, n) && Distinct(visited)
      invariant PicksSoFar(WebApp, d, trail, draws, visited)
      invariant total == PathDistance(d, visited)
      decreases n - |visited|
    {
      var next := WalkStep(d, trail, draws, visited);
      if next == -1 {
        return;
      }
      assert (visited + [next])[..|visited|] == visited;
      total := total + d[visited[|visited| - 1]][next];
      visited := visited + [next];
    }
  }

  /** One ant's tour from `start`, closed with the edge back to the start;
      the deposit is 1 / distance, absent when the distance is 0. */
  method AntTravel(n: nat, d: seq<seq<real>>, trail: seq<seq<real>>, start: nat, labels: string, draws: seq<real>)
    returns (route: seq<nat>, labelRoute: string, total: real, deposit: Option<real>)
    requires Square(d) && |d| == n && start < n && |labels| == n
    requires Square(trail) && |trail| == n
    requires n <= |draws| + 1
    ensures IsTour(WebApp, d, trail, start, draws, route)
    ensures total == PathDistance(d, route)
    ensures labelRoute == LabelRoute(labels, route)
    ensures deposit == if total != 0.0 then Some(1.0 / total) else None
  {
    var visited, walked := Walk(n, d, trail, start, draws);
    TourCloses(WebApp, d, trail, start, draws, visited);
    route := visited + [start];
    assert route[..|visited|] == visited;
    total := walked + d[visited[|visited| - 1]][start];
    labelRoute := LabelRoute(labels, route);
    if total != 0.0 {
      deposit := Some(1.0 / total);
    } else {
      deposit := None;
    }
  }

  /** The trail after one ant: halved first when `evaporate` is set, then
      copied, and the copy gains `deposit` on every edge of the route, once
      per traversal. The matrix passed in is left as it was. */
  method UpdatePheromone(trail: seq<seq<real>>, visited: seq<nat>, deposit: real, evaporate: bool)
    returns (updated: seq<seq<real>>)
    requires Square(trail) && InRange(visited, |trail|)
    ensures updated == Deposited(trail, visited, deposit, evaporate)
  {
    var n := |trail|;
    var source := trail;
    if evaporate {
      source := seq(n, i requires 0 <= i < n => seq(n, j requires 0 <= j < n => 0.5 * trail[i][j]));
    }
    var copy := new real[n, n]((i, j) requires 0 <= i < n && 0 <= j < n => source[i][j]);
    AddDeposits(copy, visited, deposit);
    SnapshotOf(copy, Deposited(trail, visited, deposit, evaporate));
    updated := Snapshot(copy);
  }

  /** The colony run: every ant travels on the current trail, which is then
      replaced by the updated copy; only the first ant (index 0) evaporates.
      The run stops at an ant whose tour has distance 0. */
  method RunColony(numAnts: nat, n: nat, d: seq<seq<real>>, start: nat, labels: string, draws: seq<seq<real>>)
    returns (results: seq<AntResult>, complete: bool)
    requires Square(d) && |d| == n && start < n && |labels| == n
    requires |draws| >= numAnts && forall k :: 0 <= k < numAnts ==> n <= |draws[k]| + 1
    ensures |results| <= numAnts && (complete <==> |results| == numAnts)
    ensures Recorded(WebApp, HalveFirstOnly, d, start, labels, draws, results)
    ensures !complete ==> StoppedAtZeroDistance(WebApp, HalveFirstOnly, d, start, draws, results)
  {
    var trail := Ones(n);
    results := [];
    for ant := 0 to numAnts
      invariant |results| == ant
      invariant trail == TrailAfter(HalveFirstOnly, Ones(n), results)
      invariant Recorded(WebApp, HalveFirstOnly, d, start, labels, draws, results)
    {
      var route, labelRoute, total, deposit := AntTravel(n, d, trail, start, labels, draws[ant]);
      if deposit.None? {
        assert IsTour(WebApp, d, TrailAfter(HalveFirstOnly, Ones(n), results), start, draws[|results|], route);
        return results, false;
      }
      trail := UpdatePheromone(trail, route, deposit.value, ant == 0);
      var result := AntResult(route, labelRoute, total, deposit.value, trail);
      assert (results + [result])[..|results|] == results;
      assert result.trail == TrailAfter(HalveFirstOnly, Ones(n), results + [result]);
      RecordedExtend(WebApp, HalveFirstOnly, d, start, labels, draws, results, result);
      results := results + [result];
    }
    complete := true;
  }

  /** An ant that has visited fewer than n stations is never stuck when all
      off-diagonal distances are positive and its row of the trail has no
      zero entry: some unvisited station has a positive score. */
  lemma NeverStuckWhenConnected(d: seq<seq<real>>, trail: seq<seq<real>>, current: nat, visited: seq<nat>, r: real)
    requires Square(d) && Square(trail) && |trail| == |d| && current < |d|
    requires Distinct(visited) && InRange(visited, |d|) && current in visited
    requires forall i, j :: 0 <= i < |d| && 0 <= j < |d| && i != j ==> d[i][j] > 0.0
    requires forall j :: 0 <= j < |d| ==> trail[current][j] != 0.0
    requires 0.0 <= r <= 1.0
    ensures |visited| < |d| ==> Pick(StepDistribution(WebApp, d, trail, current, visited), visited, r) != -1
  {
    if |visited| < |d| {
      var j := MissingStation(visited, |d|);
      var eff := DesirabilityRow(d, current, current);
      var w := StepWeights(WebApp, d, trail, current, visited);
      DesirabilityRowEntries(d, current, current);
      WeightsAreScores(eff, trail[current], visited, Alpha(WebApp), Beta(WebApp));
      WeightPositive(eff, trail[current], visited, Alpha(WebApp), Beta(WebApp), j);
      SumPositive(w, j);
      NeverStuckWithPositiveTotal(w, visited, r, NormalizedOrSelf(w));
    }
  }

  /** A walk that stops only when stuck has visited all n stations, under
      the assumptions of the lemma above. */
  lemma WalkIsFullWhenConnected(d: seq<seq<real>>, trail: seq<seq<real>>, draws: seq<real>, visited: seq<nat>)
    requires Square(d) && Square(trail) && |trail| == |d|
    requires 1 <= |visited| <= |d|
    requires InRange(visited, |d|) && Distinct(visited)
    requires |visited| < |d| ==> StuckAfter(WebApp, d, trail, draws, visited)
    requires forall i, j :: 0 <= i < |d| && 0 <= j < |d| && i != j ==> d[i][j] > 0.0
    requires forall i, j :: 0 <= i < |d| && 0 <= j < |d| ==> trail[i][j] != 0.0
    requires forall k :: 0 <= k < |draws| ==> 0.0 <= draws[k] <= 1.0
    ensures |visited| == |d|
  {
    var last := |visited| - 1;
    if |visited| < |d| {
      NeverStuckWhenConnected(d, trail, visited[last], visited, draws[last]);
    }
  }

  /** With positive off-diagonal distances, a trail without zero entries and
      draws in [0, 1], an ant of the web app visits every station from any
      start and returns: the route has n + 1 entries. */
  lemma FullTourWhenConnected(d: seq<seq<real>>, trail: seq<seq<real>>, start: nat, draws: seq<real>, route: seq<nat>)
    requires Square(d) && Square(trail) && |trail| == |d| && start < |d|
    requires IsTour(WebApp, d, trail, start, draws, route)
    requires forall i, j :: 0 <= i < |d| && 0 <= j < |d| && i != j ==> d[i][j] > 0.0
    requires forall i, j :: 0 <= i < |d| && 0 <= j < |d| ==> trail[i][j] != 0.0
    requires forall k :: 0 <= k < |draws| ==> 0.0 <= draws[k] <= 1.0
    ensures |route| == |d| + 1
    ensures forall j :: 0 <= j < |d| ==> j in route
  {
    var visited := route[..|route| - 1];
    WalkIsFullWhenConnected(d, trail, draws, visited);
    AllStations(visited, |d|);
    assert forall j :: j in visited ==> j in route;
  }

  /** In a recorded run of the web app with non-negative distances, positive
      off-diagonal distances and draws in [0, 1], every ant visits every
      station and returns. */
  lemma EveryAntCompletesTour(d: seq<seq<real>>, start: nat, labels: string, draws: seq<seq<real>>, results: seq<AntResult>)
    requires Square(d) && start < |d| && |labels| == |d| && |results| <= |draws|
    requires forall i, j :: 0 <= i < |d| && 0 <= j < |d| ==> d[i][j] >= 0.0
    requires forall i, j :: 0 <= i < |d| && 0 <= j < |d| && i != j ==> d[i][j] > 0.0
    requires forall k, q :: 0 <= k < |results| && 0 <= q < |draws[k]| ==> 0.0 <= draws[k][q] <= 1.0
    requires Recorded(WebApp, HalveFirstOnly, d, start, labels, draws, results)
    ensures forall k :: 0 <= k < |results| ==> |results[k].route| == |d| + 1
    ensures forall k, j :: 0 <= k < |results| && 0 <= j < |d| ==> j in results[k].route
  {
    forall k | 0 <= k < |results|
      ensures |results[k].route| == |d| + 1
      ensures forall j :: 0 <= j < |d| ==> j in results[k].route
    {
      var trail := TrailAfter(HalveFirstOnly, Ones(|d|), results[..k]);
      TrailBeforeAntPositive(WebApp, HalveFirstOnly, d, start, labels, draws, results, k);
      assert AntRecorded(WebApp, HalveFirstOnly, d, start, labels, draws[k], results[..k], results[k]);
      FullTourWhenConnected(d, trail, start, draws[k], results[k].route);
    }
  }

  /** In the web app an edge that no ant of a run travels ends the run at
      half its initial value 1: it is halved once, by the first ant. */
  lemma UntraversedCellHalvedOnce(d: seq<seq<real>>, start: nat, labels: string, draws: seq<seq<real>>,
                                  results: seq<AntResult>, a: nat, b: nat)
    requires Square(d) && start < |d| && |labels| == |d| && 0 < |results| <= |draws|
    requires a < |d| && b < |d|
    requires forall k :: 0 <= k < |results| ==> !Traverses(results[k].route, a, b)
    requires Recorded(WebApp, HalveFirstOnly, d, start, labels, draws, results)
    ensures results[|results| - 1].trail[a][b] == 0.5
  {
    LastRecordedTrail(WebApp, HalveFirstOnly, d, start, labels, draws, results);
    UntraversedCellDecays(HalveFirstOnly, Ones(|d|), results, a, b);
    HalvingsOfPolicies(|results|);
    assert HalvedTimes(1, 1.0) == 0.5 * HalvedTimes(0, 1.0);
  }
}

