/** Stations, their labels, routes over them and the distance a route covers.
    Shared by both colony variants (the console script and the web app). */
module Stations {

  datatype Option<T> = None | Some(value: T)

  /** An n-by-n matrix of reals, stored row by row. */
  predicate Square(m: seq<seq<real>>) {
    forall i :: 0 <= i < |m| ==> |m[i]| == |m|
  }

  /** Every station of the sequence is one of 0 .. n-1. */
  predicate InRange(s: seq<nat>, n: nat) {
    forall k :: 0 <= k < |s| ==> s[k] < n
  }

  /** No station occurs twice. */
  predicate Distinct(s: seq<nat>) {
    forall i, j :: 0 <= i < j < |s| ==> s[i] != s[j]
  }

  /** The label list: station i is shown as the character with code 65 + i,
      so A, B, C, ... for the first 26 stations. Codes must stay below the
      surrogate range to be characters at all. */
  function StationLabels(n: nat): (labels: string)
    requires 65 + n <= 0xD800
    ensures |labels| == n
    ensures forall i :: 0 <= i < n ==> StationOf(labels[i]) == i
    ensures n <= 26 ==> forall i :: 0 <= i < n ==> 'A' <= labels[i] <= 'Z'
  {
    seq(n, i requires 0 <= i < n => (65 + i) as char)
  }

  /** The station a label stands for (the inverse of the numbering above). */
  function StationOf(c: char): int {
    c as int - 65
  }

  /** A route spelled with labels: each station replaced by its label. */
  function LabelRoute(labels: string, route: seq<nat>): (spelled: string)
    requires InRange(route, |labels|)
    ensures |spelled| == |route|
  {
    seq(|route|, k requires 0 <= k < |route| => labels[route[k]])
  }

  /** Reads a spelled route back as station indices. */
  function ReadRoute(spelled: string): (route: seq<int>)
    ensures |route| == |spelled|
  {
    seq(|spelled|, k requires 0 <= k < |spelled| => StationOf(spelled[k]))
  }

  /** Spelling a route with the standard labels loses nothing. */
  lemma LabelRouteRoundTrip(n: nat, route: seq<nat>)
    requires 65 + n <= 0xD800
    requires InRange(route, n)
    ensures ReadRoute(LabelRoute(StationLabels(n), route)) == route
  {
    var labels := StationLabels(n);
    var back := ReadRoute(LabelRoute(labels, route));
    forall k | 0 <= k < |route|
      ensures back[k] == route[k]
    {
      assert LabelRoute(labels, route)[k] == labels[route[k]];
    }
  }

  /** The sum of d[a][b] over the consecutive pairs (a, b) of a route, added left to right. */
  function PathDistance(d: seq<seq<real>>, route: seq<nat>): real
    requires Square(d) && InRange(route, |d|)
  {
    if |route| < 2 then 0.0
    else PathDistance(d, route[..|route| - 1]) + d[route[|route| - 2]][route[|route| - 1]]
  }

  /** With non-negative distances the distance of a route is non-negative. */
  lemma {:induction false} PathDistanceNonNegative(d: seq<seq<real>>, route: seq<nat>)
    requires Square(d) && InRange(route, |d|)
    requires forall i, j :: 0 <= i < |d| && 0 <= j < |d| ==> d[i][j] >= 0.0
    ensures PathDistance(d, route) >= 0.0
  {
    if |route| >= 2 {
      PathDistanceNonNegative(d, route[..|route| - 1]);
    }
  }

  /** The stations 0 .. n-1 as a set. */
  function Below(n: nat): (all: set<nat>)
    ensures forall j :: j in all <==> 0 <= j < n
    ensures |all| == n
  {
    if n == 0 then {} else Below(n - 1) + {n - 1}
  }

  /** The stations occurring in a sequence, as a set. */
  function Elements(s: seq<nat>): (elems: set<nat>)
    ensures forall x :: x in elems <==> x in s
    ensures |elems| <= |s|
    ensures Distinct(s) ==> |elems| == |s|
  {
    if s == [] then {}
    else
      var init := s[..|s| - 1];
      assert forall x :: x in s <==> x in init || x == s[|s| - 1];
      Elements(init) + {s[|s| - 1]}
  }

  /** Pigeonhole: a repetition-free sequence of stations below n that
      avoids every station of `others` has at most n - |others| entries. */
  lemma DistinctBound(s: seq<nat>, n: nat, others: set<nat>)
    requires Distinct(s) && InRange(s, n)
    requires forall x :: x in others ==> x < n && x !in s
    ensures |s| + |others| <= n
  {
    var inS := Elements(s);
    assert inS !! others;
    var used := inS + others;
    assert |used| == |inS| + |others|;
    assert used <= Below(n);
    assert Below(n) == used + (Below(n) - used);
  }

  /** Fewer than n distinct stations leave some station unvisited. */
  lemma MissingStation(s: seq<nat>, n: nat) returns (j: nat)
    requires Distinct(s) && InRange(s, n) && |s| < n
    ensures j < n && j !in s
  {
    var inS := Elements(s);
    var rest := Below(n) - inS;
    assert inS <= Below(n);
    assert |rest| > 0 by {
      assert Below(n) == inS + rest;
    }
    j :| j in rest;
  }

  /** n distinct stations out of n are all of them. */
  lemma AllStations(s: seq<nat>, n: nat)
    requires Distinct(s) && InRange(s, n) && |s| == n
    ensures forall j :: 0 <= j < n ==> j in s
  {
    forall j | 0 <= j < n
      ensures j in s
    {
      if j !in s {
        DistinctBound(s, n, {j});
      }
    }
  }
}
