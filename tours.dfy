/** One ant's tour and a colony run, as relations between their inputs and
    what they produce. The two variants of the engine differ only in how a
    step's scores are formed and normalised, and in their evaporation policy. */
module Tours {
  import opened Stations
  import opened Roulette
  import opened Trails

  /** The two variants of the engine. */
  datatype Variant =
    | Console  // the console script (ACO.py)
    | WebApp   // the web app (app.py)

  /** The exponent of the desirability in a score. */
  function Alpha(v: Variant): nat {
    2
  }

  /** The exponent of the trail in a score. */
  function Beta(v: Variant): nat {
    match v
    case Console => 1
    case WebApp => 2
  }

  /** The scores of the candidates for an ant at `current` that has visited
      `visited`. The console script always reads row 0 of its efficiency and
      trail matrices, whatever the current station; the web app reads the
      current row. */
  function StepWeights(v: Variant, d: seq<seq<real>>, trail: seq<seq<real>>, current: nat, visited: seq<nat>): (w: seq<real>)
    requires Square(d) && Square(trail) && |trail| == |d| && current < |d|
    ensures |w| == |d|
  {
    match v
    case Console => Weights(DesirabilityRow(d, current, 0), trail[0], visited, Alpha(v), Beta(v))
    case WebApp => Weights(DesirabilityRow(d, current, current), trail[current], visited, Alpha(v), Beta(v))
  }

  /** How each variant turns scores into shares. */
  function StepNormalized(v: Variant, w: seq<real>): (p: seq<real>)
    ensures |p| == |w|
  {
    match v
    case Console => NormalizedOrZeros(w)
    case WebApp => NormalizedOrSelf(w)
  }

  /** The running totals the roulette wheel scans at one step of a tour. */
  function StepDistribution(v: Variant, d: seq<seq<real>>, trail: seq<seq<real>>, current: nat, visited: seq<nat>): (c: seq<real>)
    requires Square(d) && Square(trail) && |trail| == |d| && current < |d|
    ensures |c| == |d|
  {
    Cumulative(StepNormalized(v, StepWeights(v, d, trail, current, visited)))
  }

  /** Station k of the route (k > 0) is the wheel's pick, for draw k - 1,
      from station k - 1 with stations 0 .. k-1 visited. */
  predicate PickedAt(v: Variant, d: seq<seq<real>>, trail: seq<seq<real>>, draws: seq<real>, route: seq<nat>, k: nat)
    requires Square(d) && Square(trail) && |trail| == |d|
  {
    && 0 < k < |route| && k - 1 < |draws| && route[k - 1] < |d|
    && route[k] == Pick(StepDistribution(v, d, trail, route[k - 1], route[..k]), route[..k], draws[k - 1])
  }

  /** The wheel gives -1 for the next draw after the stations `visited`. */
  predicate StuckAfter(v: Variant, d: seq<seq<real>>, trail: seq<seq<real>>, draws: seq<real>, visited: seq<nat>)
    requires Square(d) && Square(trail) && |trail| == |d|
  {
    && 0 < |visited| && |visited| - 1 < |draws| && visited[|visited| - 1] < |d|
    && Pick(StepDistribution(v, d, trail, visited[|visited| - 1], visited), visited, draws[|visited| - 1]) == -1
  }

  /** `route` is the tour an ant of variant v makes from `start` over the
      trail `trail` when draw k is the random number of its k-th step: it
      starts and ends at `start`, repeats no station before the return, each
      station after the start is the wheel's pick for the stations before it,
      and a tour that returns before visiting all n stations does so because
      the wheel gave -1. */
  predicate IsTour(v: Variant, d: seq<seq<real>>, trail: seq<seq<real>>, start: nat, draws: seq<real>, route: seq<nat>)
    requires Square(d) && Square(trail) && |trail| == |d| && start < |d|
  {
    && 2 <= |route| <= |d| + 1
    && route[0] == start && route[|route| - 1] == start
    && InRange(route, |d|)
    && Distinct(route[..|route| - 1])
    && (forall k :: 0 < k < |route| - 1 ==> PickedAt(v, d, trail, draws, route, k))
    && (|route| < |d| + 1 ==> StuckAfter(v, d, trail, draws, route[..|route| - 1]))
  }

  /** The stations visited so far (`visited`) followed each pick of the wheel. */
  predicate PicksSoFar(v: Variant, d: seq<seq<real>>, trail: seq<seq<real>>, draws: seq<real>, visited: seq<nat>)
    requires Square(d) && Square(trail) && |trail| == |d|
  {
    forall k :: 0 < k < |visited| ==> PickedAt(v, d, trail, draws, visited, k)
  }

  /** Whether station k was picked depends only on the first k + 1 stations. */
  lemma PickedAtSamePrefix(v: Variant, d: seq<seq<real>>, trail: seq<seq<real>>, draws: seq<real>,
                           route: seq<nat>, other: seq<nat>, k: nat)
    requires Square(d) && Square(trail) && |trail| == |d|
    requires k < |route| && k < |other| && route[..k + 1] == other[..k + 1]
    requires PickedAt(v, d, trail, draws, route, k)
    ensures PickedAt(v, d, trail, draws, other, k)
  {
    assert route[..k] == route[..k + 1][..k];
    assert other[..k] == other[..k + 1][..k];
    assert route[k] == route[..k + 1][k] && other[k] == other[..k + 1][k];
    assert route[k - 1] == route[..k + 1][k - 1] && other[k - 1] == other[..k + 1][k - 1];
  }

  /** Appending the wheel's pick keeps every earlier pick and adds the new one. */
  lemma PicksExtend(v: Variant, d: seq<seq<real>>, trail: seq<seq<real>>, draws: seq<real>, visited: seq<nat>, next: nat)
    requires Square(d) && Square(trail) && |trail| == |d|
    requires 0 < |visited| && visited[|visited| - 1] < |d| && |visited| - 1 < |draws|
    requires PicksSoFar(v, d, trail, draws, visited)
    requires next == Pick(StepDistribution(v, d, trail, visited[|visited| - 1], visited), visited, draws[|visited| - 1])
    ensures PicksSoFar(v, d, trail, draws, visited + [next])
  {
    var longer := visited + [next];
    forall k | 0 < k < |visited|
      ensures PickedAt(v, d, trail, draws, longer, k)
    {
      assert visited[..k + 1] == longer[..k + 1];
      PickedAtSamePrefix(v, d, trail, draws, visited, longer, k);
    }
    assert longer[..|visited|] == visited;
    assert PickedAt(v, d, trail, draws, longer, |visited|);
  }

  /** Closing the visited stations with the return to the start gives a tour,
      provided the stations were added by the wheel, and either all n were
      visited or the wheel gave -1 for the next draw. */
  lemma TourCloses(v: Variant, d: seq<seq<real>>, trail: seq<seq<real>>, start: nat, draws: seq<real>, visited: seq<nat>)
    requires Square(d) && Square(trail) && |trail| == |d| && start < |d|
    requires 1 <= |visited| <= |d| && visited[0] == start
    requires InRange(visited, |d|) && Distinct(visited)
    requires PicksSoFar(v, d, trail, draws, visited)
    requires |visited| < |d| ==> StuckAfter(v, d, trail, draws, visited)
    ensures IsTour(v, d, trail, start, draws, visited + [start])
  {
    var route := visited + [start];
    assert route[..|route| - 1] == visited;
    forall k | 0 < k < |route| - 1
      ensures PickedAt(v, d, trail, draws, route, k)
    {
      assert visited[..k + 1] == route[..k + 1];
      PickedAtSamePrefix(v, d, trail, draws, visited, route, k);
    }
  }

  /** What a colony run records for one ant: its tour over the trail the
      earlier ants left behind, the distance of that tour, the tour spelled
      with labels, the deposit 1 / distance, and the trail after its update. */
  predicate AntRecorded(v: Variant, policy: Evaporation, d: seq<seq<real>>, start: nat, labels: string,
                        draws: seq<real>, before: seq<AntResult>, ant: AntResult)
    requires Square(d) && start < |d| && |labels| == |d|
  {
    var trail := TrailAfter(policy, Ones(|d|), before);
    && IsTour(v, d, trail, start, draws, ant.route)
    && ant.distance == PathDistance(d, ant.route)
    && ant.labels == LabelRoute(labels, ant.route)
    && ant.distance != 0.0 && ant.deposit == 1.0 / ant.distance
    && ant.trail == TrailAfter(policy, Ones(|d|), before + [ant])
  }

  /** Every ant of a run, in order, is recorded as above, ant k using
      draws[k]; in particular every recorded trail is an n-by-n matrix. */
  predicate Recorded(v: Variant, policy: Evaporation, d: seq<seq<real>>, start: nat, labels: string,
                     draws: seq<seq<real>>, results: seq<AntResult>)
    requires Square(d) && start < |d| && |labels| == |d| && |results| <= |draws|
  {
    && (forall k {:trigger AntRecorded(v, policy, d, start, labels, draws[k], results[..k], results[k])} ::
          0 <= k < |results| ==> AntRecorded(v, policy, d, start, labels, draws[k], results[..k], results[k]))
    && (forall k :: 0 <= k < |results| ==> |results[k].trail| == |d| && Square(results[k].trail))
  }

  /** Appending a recorded ant to a recorded run gives a recorded run. */
  lemma RecordedExtend(v: Variant, policy: Evaporation, d: seq<seq<real>>, start: nat, labels: string,
                       draws: seq<seq<real>>, results: seq<AntResult>, ant: AntResult)
    requires Square(d) && start < |d| && |labels| == |d| && |results| < |draws|
    requires Recorded(v, policy, d, start, labels, draws, results)
    requires AntRecorded(v, policy, d, start, labels, draws[|results|], results, ant)
    ensures Recorded(v, policy, d, start, labels, draws, results + [ant])
  {
    var next := results + [ant];
    forall k | 0 <= k < |next|
      ensures AntRecorded(v, policy, d, start, labels, draws[k], next[..k], next[k])
    {
      if k < |results| {
        assert next[..k] == results[..k];
      } else {
        assert next[..k] == results;
      }
    }
  }

  /** The run stopped at ant |results| because, on the trail the recorded ants
      left, that ant's tour has distance 0 and so no finite deposit. */
  ghost predicate StoppedAtZeroDistance(v: Variant, policy: Evaporation, d: seq<seq<real>>, start: nat,
                                  draws: seq<seq<real>>, results: seq<AntResult>)
    requires Square(d) && start < |d| && |results| < |draws|
  {
    exists route :: IsTour(v, d, TrailAfter(policy, Ones(|d|), results), start, draws[|results|], route)
      && PathDistance(d, route) == 0.0
  }

  /** A recorded ant on non-negative distances deposits a positive amount. */
  lemma RecordedDepositPositive(v: Variant, policy: Evaporation, d: seq<seq<real>>, start: nat, labels: string,
                                draws: seq<real>, before: seq<AntResult>, ant: AntResult)
    requires Square(d) && start < |d| && |labels| == |d|
    requires forall i, j :: 0 <= i < |d| && 0 <= j < |d| ==> d[i][j] >= 0.0
    requires AntRecorded(v, policy, d, start, labels, draws, before, ant)
    ensures ant.deposit > 0.0
  {
    PathDistanceNonNegative(d, ant.route);
  }

  /** Ant k of a recorded run left a positive trail. */
  lemma RecordedTrailPositive(v: Variant, policy: Evaporation, d: seq<seq<real>>, start: nat, labels: string,
                              draws: seq<seq<real>>, results: seq<AntResult>, k: nat)
    requires Square(d) && start < |d| && |labels| == |d| && |results| <= |draws| && k < |results|
    requires forall i, j :: 0 <= i < |d| && 0 <= j < |d| ==> d[i][j] >= 0.0
    requires forall q :: 0 <= q < |results| ==> results[q].deposit > 0.0
    requires AntRecorded(v, policy, d, start, labels, draws[k], results[..k], results[k])
    ensures forall i, j :: 0 <= i < |d| && 0 <= j < |d| ==> results[k].trail[i][j] > 0.0
  {
    assert results[..k] + [results[k]] == results[..k + 1];
    TrailStaysPositive(policy, Ones(|d|), results[..k + 1]);
  }

  /** With non-negative distances every recorded deposit is positive, so every
      recorded trail stays positive from the all-ones start onwards. */
  lemma RecordedTrailsPositive(v: Variant, policy: Evaporation, d: seq<seq<real>>, start: nat, labels: string,
                               draws: seq<seq<real>>, results: seq<AntResult>)
    requires Square(d) && start < |d| && |labels| == |d| && |results| <= |draws|
    requires forall i, j :: 0 <= i < |d| && 0 <= j < |d| ==> d[i][j] >= 0.0
    requires Recorded(v, policy, d, start, labels, draws, results)
    ensures forall k, i, j :: 0 <= k < |results| && 0 <= i < |d| && 0 <= j < |d| ==> results[k].trail[i][j] > 0.0
  {
    forall k | 0 <= k < |results|
      ensures results[k].deposit > 0.0
    {
      RecordedDepositPositive(v, policy, d, start, labels, draws[k], results[..k], results[k]);
    }
    forall k | 0 <= k < |results|
      ensures forall i, j :: 0 <= i < |d| && 0 <= j < |d| ==> results[k].trail[i][j] > 0.0
    {
      RecordedTrailPositive(v, policy, d, start, labels, draws, results, k);
    }
  }

  /** With non-negative distances the trail that ant k of a recorded run
      travels on is positive everywhere. */
  lemma TrailBeforeAntPositive(v: Variant, policy: Evaporation, d: seq<seq<real>>, start: nat, labels: string,
                               draws: seq<seq<real>>, results: seq<AntResult>, k: nat)
    requires Square(d) && start < |d| && |labels| == |d| && |results| <= |draws| && k < |results|
    requires forall i, j :: 0 <= i < |d| && 0 <= j < |d| ==> d[i][j] >= 0.0
    requires Recorded(v, policy, d, start, labels, draws, results)
    ensures forall i, j :: 0 <= i < |d| && 0 <= j < |d| ==> TrailAfter(policy, Ones(|d|), results[..k])[i][j] > 0.0
  {
    var before := results[..k];
    forall q | 0 <= q < k
      ensures before[q].deposit >= 0.0
    {
      RecordedDepositPositive(v, policy, d, start, labels, draws[q], results[..q], results[q]);
    }
    TrailStaysPositive(policy, Ones(|d|), before);
  }

  /** The trail recorded after the last ant of a run is the trail after all
      the ants of the run. */
  lemma LastRecordedTrail(v: Variant, policy: Evaporation, d: seq<seq<real>>, start: nat, labels: string,
                          draws: seq<seq<real>>, results: seq<AntResult>)
    requires Square(d) && start < |d| && |labels| == |d| && 0 < |results| <= |draws|
    requires Recorded(v, policy, d, start, labels, draws, results)
    ensures results[|results| - 1].trail == TrailAfter(policy, Ones(|d|), results)
  {
    var last := |results| - 1;
    assert results[..last] + [results[last]] == results;
    assert AntRecorded(v, policy, d, start, labels, draws[last], results[..last], results[last]);
  }
}
