/** The trail ("pheromone") matrix: its initial value, the deposit one ant
    makes along its route, the evaporation schedules of the two variants, and
    the trail a whole sequence of ants leaves behind. */
module Trails {
  import opened Stations
  import opened Roulette

  /** How many times the directed step a -> b occurs in the route. */
  function Occurrences(route: seq<nat>, a: nat, b: nat): nat {
    if |route| < 2 then 0
    else
      Occurrences(route[..|route| - 1], a, b)
      + (if route[|route| - 2] == a && route[|route| - 1] == b then 1 else 0)
  }

  /** The route contains the directed step a -> b somewhere. */
  predicate Traverses(route: seq<nat>, a: nat, b: nat) {
    exists k :: 0 <= k < |route| - 1 && route[k] == a && route[k + 1] == b
  }

  /** A step is counted exactly when the route contains it. */
  lemma {:induction false} OccurrencesCount(route: seq<nat>, a: nat, b: nat)
    ensures Occurrences(route, a, b) > 0 <==> Traverses(route, a, b)
  {
    if |route| >= 2 {
      var init := route[..|route| - 1];
      OccurrencesCount(init, a, b);
      if Traverses(init, a, b) {
        var k :| 0 <= k < |init| - 1 && init[k] == a && init[k + 1] == b;
        assert route[k] == a && route[k + 1] == b;
      }
      if Traverses(route, a, b) {
        var k :| 0 <= k < |route| - 1 && route[k] == a && route[k + 1] == b;
        if k < |route| - 2 {
          assert init[k] == a && init[k + 1] == b;
        }
      }
    }
  }

  /** On a route whose stations before the final return are all different,
      no directed step occurs twice. */
  lemma {:induction false} OccurrencesAtMostOnce(route: seq<nat>, a: nat, b: nat)
    requires |route| >= 1 && Distinct(route[..|route| - 1])
    ensures Occurrences(route, a, b) <= 1
  {
    if |route| >= 2 {
      var init := route[..|route| - 1];
      assert Distinct(init[..|init| - 1]) by {
        assert init[..|init| - 1] == route[..|route| - 2];
      }
      OccurrencesAtMostOnce(init, a, b);
      if route[|route| - 2] == a && route[|route| - 1] == b {
        // a is the last station of init, so no earlier step of init starts at a
        forall k | 0 <= k < |init| - 1
          ensures !(init[k] == a && init[k + 1] == b)
        {
          assert init[k] != init[|init| - 1];
        }
        OccurrencesCount(init, a, b);
      }
    }
  }

  /** The initial trail: every entry 1 (numpy's ones((n, n))). */
  function Ones(n: nat): (m: seq<seq<real>>)
    ensures Square(m) && |m| == n
    ensures forall i, j :: 0 <= i < n && 0 <= j < n ==> m[i][j] == 1.0
  {
    seq(n, _ => seq(n, _ => 1.0))
  }

  /** A trail entry after evaporation: halved when the ant halves, else kept. */
  function Evaporated(halve: bool, x: real): real {
    if halve then 0.5 * x else x
  }

  /** x halved k times over. */
  function HalvedTimes(k: nat, x: real): real {
    if k == 0 then x else 0.5 * HalvedTimes(k - 1, x)
  }

  /** The amount that `times` additions of `deposit` put on a cell. */
  function Gain(times: nat, deposit: real): real {
    if times == 0 then 0.0 else Gain(times - 1, deposit) + deposit
  }

  lemma {:induction false} GainNonNegative(times: nat, deposit: real)
    requires deposit >= 0.0
    ensures Gain(times, deposit) >= 0.0
  {
    if times > 0 {
      GainNonNegative(times - 1, deposit);
    }
  }

  /** The trail after one ant: every entry multiplied by the evaporation
      factor, then `deposit` added once for each occurrence of the directed
      step a -> b in the route. */
  function Deposited(m: seq<seq<real>>, route: seq<nat>, deposit: real, halve: bool): (next: seq<seq<real>>)
    requires Square(m)
    ensures Square(next) && |next| == |m|
  {
    seq(|m|, a requires 0 <= a < |m| =>
      seq(|m|, b requires 0 <= b < |m| =>
        Evaporated(halve, m[a][b]) + Gain(Occurrences(route, a, b), deposit)))
  }

  /** A cell whose step the route does not contain (a reverse edge, say) is
      only scaled by the evaporation factor. */
  lemma DepositedUntraversed(m: seq<seq<real>>, route: seq<nat>, deposit: real, halve: bool, a: nat, b: nat)
    requires Square(m) && a < |m| && b < |m|
    requires !Traverses(route, a, b)
    ensures Deposited(m, route, deposit, halve)[a][b] == Evaporated(halve, m[a][b])
  {
    OccurrencesCount(route, a, b);
  }

  /** On a tour (no station repeated before the return), a cell whose step the
      tour contains gains exactly one deposit. */
  lemma DepositedTraversed(m: seq<seq<real>>, route: seq<nat>, deposit: real, halve: bool, a: nat, b: nat)
    requires Square(m) && a < |m| && b < |m|
    requires |route| >= 1 && Distinct(route[..|route| - 1])
    requires Traverses(route, a, b)
    ensures Deposited(m, route, deposit, halve)[a][b] == Evaporated(halve, m[a][b]) + deposit
  {
    OccurrencesCount(route, a, b);
    OccurrencesAtMostOnce(route, a, b);
    assert Gain(1, deposit) == Gain(0, deposit) + deposit;
  }

  /** A positive trail stays positive under a non-negative deposit. */
  lemma DepositedPositive(m: seq<seq<real>>, route: seq<nat>, deposit: real, halve: bool)
    requires Square(m)
    requires forall i, j :: 0 <= i < |m| && 0 <= j < |m| ==> m[i][j] > 0.0
    requires deposit >= 0.0
    ensures forall i, j :: 0 <= i < |m| && 0 <= j < |m| ==> Deposited(m, route, deposit, halve)[i][j] > 0.0
  {
    var next := Deposited(m, route, deposit, halve);
    forall i, j | 0 <= i < |m| && 0 <= j < |m|
      ensures next[i][j] > 0.0
    {
      GainNonNegative(Occurrences(route, i, j), deposit);
    }
  }

  /** Row i of a matrix held in a two-dimensional array. */
  function Row(m: array2<real>, i: nat): (row: seq<real>)
    reads m
    requires i < m.Length0
    ensures |row| == m.Length1
    ensures forall j :: 0 <= j < m.Length1 ==> row[j] == m[i, j]
  {
    seq(m.Length1, j requires 0 <= j < m.Length1 reads m => m[i, j])
  }

  /** The value a two-dimensional array currently holds, row by row. */
  function Snapshot(m: array2<real>): (s: seq<seq<real>>)
    reads m
    ensures |s| == m.Length0
    ensures forall i :: 0 <= i < m.Length0 ==> s[i] == Row(m, i)
    ensures m.Length0 == m.Length1 ==> Square(s)
  {
    seq(m.Length0, i requires 0 <= i < m.Length0 reads m => Row(m, i))
  }

  /** An array holds the matrix s when it agrees with s cell by cell. */
  lemma SnapshotOf(m: array2<real>, s: seq<seq<real>>)
    requires |s| == m.Length0
    requires forall i :: 0 <= i < |s| ==> |s[i]| == m.Length1
    requires forall i, j :: 0 <= i < m.Length0 && 0 <= j < m.Length1 ==> m[i, j] == s[i][j]
    ensures Snapshot(m) == s
  {
    forall i | 0 <= i < |s|
      ensures Snapshot(m)[i] == s[i]
    {
      assert Row(m, i) == s[i];
    }
  }

  /** The part of the route the deposit loop has walked before index i. */
  ghost function Walked(route: seq<nat>, i: nat): seq<nat> {
    if i <= |route| then route[..i] else route
  }

  /** Walks the consecutive pairs (a, b) of the route and adds `deposit` to
      cell (a, b) in place, once per pair; nothing else changes. */
  method AddDeposits(m: array2<real>, route: seq<nat>, deposit: real)
    requires m.Length0 == m.Length1 && InRange(route, m.Length0)
    modifies m
    ensures forall a, b :: 0 <= a < m.Length0 && 0 <= b < m.Length1 ==>
      m[a, b] == old(m[a, b]) + Gain(Occurrences(route, a, b), deposit)
  {
    var i := 1;
    forall a, b | 0 <= a < m.Length0 && 0 <= b < m.Length1
      ensures Gain(Occurrences(Walked(route, i), a, b), deposit) == 0.0
    {
    }
    while i < |route|
      invariant 1 <= i && (|route| >= 1 ==> i <= |route|)
      invariant forall a, b :: 0 <= a < m.Length0 && 0 <= b < m.Length1 ==>
        m[a, b] == old(m[a, b]) + Gain(Occurrences(Walked(route, i), a, b), deposit)
      decreases |route| - i
    {
      var current, next := route[i - 1], route[i];
      assert Walked(route, i + 1)[..i] == Walked(route, i);
      m[current, next] := m[current, next] + deposit;
      i := i + 1;
    }
    assert Walked(route, i) == route;
  }

  /** Which ants evaporate the trail before their deposit. */
  datatype Evaporation =
    | HalveAllButSecond  // the console script: every ant except the one with index 1
    | HalveFirstOnly     // the web app: only the ant with index 0

  function Halves(policy: Evaporation, ant: nat): bool {
    match policy
    case HalveAllButSecond => ant != 1
    case HalveFirstOnly => ant == 0
  }

  /** What one ant of a run produces. */
  datatype AntResult = AntResult(
    route: seq<nat>,              // station indices, ending with the return to the start
    labels: string,               // the same route spelled with station labels
    distance: real,               // total distance including the closing edge
    deposit: real,                // 1 / distance
    trail: seq<seq<real>>)        // the trail matrix after this ant's update

  /** The trail after the given ants, in order, starting from `initial`: ant k
      evaporates when the policy says so and then deposits along its route. */
  function TrailAfter(policy: Evaporation, initial: seq<seq<real>>, ants: seq<AntResult>): (m: seq<seq<real>>)
    requires Square(initial)
    ensures Square(m) && |m| == |initial|
  {
    if ants == [] then initial
    else
      var last := ants[|ants| - 1];
      Deposited(TrailAfter(policy, initial, ants[..|ants| - 1]), last.route, last.deposit, Halves(policy, |ants| - 1))
  }

  /** The number of ants among the first `count` that halve the trail. */
  function Halvings(policy: Evaporation, count: nat): nat {
    if count == 0 then 0
    else Halvings(policy, count - 1) + (if Halves(policy, count - 1) then 1 else 0)
  }

  /** The console script halves for every ant but the second; the web app
      halves exactly once, for the first ant. */
  lemma {:induction false} HalvingsOfPolicies(count: nat)
    ensures Halvings(HalveAllButSecond, count) == if count >= 2 then count - 1 else count
    ensures Halvings(HalveFirstOnly, count) == if count >= 1 then 1 else 0
  {
    if count > 0 {
      HalvingsOfPolicies(count - 1);
    }
  }

  /** A cell that no ant's route passes through ends as its initial value
      halved exactly once per evaporating ant, no more and no fewer. */
  lemma {:induction false} UntraversedCellDecays(policy: Evaporation, initial: seq<seq<real>>, ants: seq<AntResult>, a: nat, b: nat)
    requires Square(initial) && a < |initial| && b < |initial|
    requires forall k :: 0 <= k < |ants| ==> !Traverses(ants[k].route, a, b)
    ensures TrailAfter(policy, initial, ants)[a][b] == HalvedTimes(Halvings(policy, |ants|), initial[a][b])
  {
    if ants != [] {
      var last := ants[|ants| - 1];
      UntraversedCellDecays(policy, initial, ants[..|ants| - 1], a, b);
      OccurrencesCount(last.route, a, b);
    }
  }

  /** Starting from a positive trail, ants with non-negative deposits keep
      every entry positive. */
  lemma {:induction false} TrailStaysPositive(policy: Evaporation, initial: seq<seq<real>>, ants: seq<AntResult>)
    requires Square(initial)
    requires forall i, j :: 0 <= i < |initial| && 0 <= j < |initial| ==> initial[i][j] > 0.0
    requires forall k :: 0 <= k < |ants| ==> ants[k].deposit >= 0.0
    ensures forall i, j :: 0 <= i < |initial| && 0 <= j < |initial| ==> TrailAfter(policy, initial, ants)[i][j] > 0.0
  {
    if ants != [] {
      var init := ants[..|ants| - 1];
      TrailStaysPositive(policy, initial, init);
      var last := ants[|ants| - 1];
      DepositedPositive(TrailAfter(policy, initial, init), last.route, last.deposit, Halves(policy, |ants| - 1));
    }
  }
}
