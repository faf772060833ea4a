# Ant-colony tour construction, modelled in Dafny

The repository builds ant tours over n stations twice. `ACO.py` is a console
script and `app.py` is a web app. In both, an ant starts at a chosen station
and repeatedly picks its next station with a roulette wheel. The wheel's
slices are inverse-distance desirability times trail ("pheromone") strength,
over the stations the ant has not visited yet. The ant returns to the start
when every station is visited or the wheel finds nothing. It then deposits
1 / (tour length) on every directed edge it travelled. A colony run sends
several ants one after the other over a trail matrix that starts at all ones
and is halved before some of the deposits.

The two files differ in three ways, and the model keeps each difference
explicit:

- **Scores.** The console script scores station i as `eff[0][i]^2 * pher[0][i]`,
  always from row 0. The web app uses `eff[j]^2 * trail[current][j]^2`
  (`Tours.Alpha`, `Tours.Beta`, `Tours.StepWeights`).
- **Evaporation.** The console script halves the trail for every ant except
  the one with index 1. The web app halves only for ant 0
  (`Trails.Evaporation`, `Trails.Halves`).
- **Update style.** The console script adds the deposits to its matrix in
  place, an `array2<real>`. The web app adds them to a copy and returns it,
  so its trail is a matrix value (`seq<seq<real>>`).

Modules:

- `Stations` (stations.dfy): labels, spelled routes, route distance, and
  pigeonhole facts about repetition-free routes.
- `Roulette` (roulette.dfy): desirability, scores, normalisation and running
  totals, and the wheel's pick (`Pick`) with its loop (`SelectNextStation`).
- `Trails` (trails.dfy): the deposit one ant makes, the in-place deposit
  loop, the evaporation policies, and the trail a sequence of ants leaves
  (`TrailAfter`).
- `Tours` (tours.dfy): what a tour is (`IsTour`: each station after the start
  is the wheel's pick for the draw of that step) and what a colony run
  records (`Recorded`).
- `Aco` (aco.dfy): the console script's loops, proved against those
  definitions.
- `App` (app.py's counterpart, app.dfy): the web app's loops, proved the
  same way.

Randomness becomes explicit draws: ant k of a run uses `draws[k]`, and
`draws[k][s]` is the number `random.random()` returns at step s + 1 of that
ant's tour.

One consequence of the console script's row-0 scoring is proved rather than
corrected. `eff[0][0]` is always 0, so station 0 never gets a positive score.
From any other start, with positive draws, no ant ever visits station 0
(`Aco.NoAntCompletesAwayFromStationZero`). From station 0, with positive
distances, every ant visits every station (`Aco.EveryAntCompletesFromStationZero`).

## Model

| member | source | states |
|---|---|---|
| Stations.StationLabels | ACO.py:5-6 | n labels; label i is the character with code 65 + i, so it reads back as station i; for n <= 26 all labels are capital letters (`get_station_labels` in app.py:10-11 is the same) |
| Stations.LabelRouteRoundTrip | ACO.py:110-111 | spelling a route with the standard labels and reading the labels back gives the route again (also app.py:72) |
| Stations.PathDistanceNonNegative | ACO.py:99-105 | with non-negative distances, a route's summed distance is non-negative |
| Roulette.InverseProperties | ACO.py:35-36 | 1/x for a positive distance, else 0: never negative, positive exactly for a positive distance, and then its product with the distance is 1 |
| Roulette.DesirabilityRowEntries | app.py:18-24 | every desirability is >= 0; the excluded column is 0; an entry is positive exactly when its column is not excluded and the distance is positive; a positive entry is the reciprocal of the distance |
| Roulette.WeightsAreScores | ACO.py:48-50 | visited stations score 0; all scores are >= 0 when the desirabilities are, provided the trail is non-negative or its exponent is even (app.py:32-34 squares it) |
| Roulette.WeightPositive | app.py:32-34 | an unvisited station with positive desirability and a positive trail entry, or a non-zero one under an even exponent, has a positive score |
| Roulette.NormalizedShares | ACO.py:52-55 | with a positive total, the shares sum to 1 and each share has the sign of its score |
| Roulette.NormalizedOrZerosShares | ACO.py:53-55 | the console script's shares sum to 1 when the total is positive and are all 0 otherwise |
| Roulette.NormalizedOrSelfShares | app.py:36-37 | the web app's shares sum to 1 when the total is positive; otherwise they are the scores, all 0 when the scores are non-negative |
| Roulette.NormalizedVariantsAgree | app.py:37 | for non-negative scores the two normalisations agree |
| Roulette.CumulativeSteps | ACO.py:57-61 | the running totals begin with the first share, end with the sum of all shares, and each is the previous one plus the next share |
| Roulette.CumulativeIsPrefixSum | app.py:38 | running total k is the sum of shares 0..k |
| Roulette.CumulativeMonotone | ACO.py:60-61 | with non-negative shares the running totals never decrease |
| Roulette.Pick | ACO.py:66-71 | the pick is -1 exactly when no unvisited index has a running total >= r; otherwise it is an unvisited index whose total reaches r, and no smaller index qualifies |
| Roulette.SelectNextStation | app.py:43-48 | the ascending scan returns exactly the pick above: -1, or an unvisited index with r <= its total |
| Roulette.PickedHasWeight | ACO.py:68-70 | a positive draw never picks a station with score 0: the result is -1 or a station with a positive score |
| Roulette.SelectionGuarantee | app.py:43-48 | with a positive total and a draw in (0, 1], the pick is an unvisited station with a positive score, never -1 |
| Roulette.NeverStuckWithPositiveTotal | app.py:43-48 | with a positive total and a draw in [0, 1], the pick is never -1 |
| Trails.OccurrencesCount | ACO.py:76-79 | the number of times a directed step a -> b occurs in the route is positive exactly when the route contains that step |
| Trails.OccurrencesAtMostOnce | app.py:86-88 | on a route with no station repeated before its return, no directed step occurs twice |
| Trails.Ones | app.py:14-15 | the initial trail is n-by-n with every entry 1 (also ACO.py:40-41) |
| Trails.DepositedUntraversed | app.py:82-88 | after one ant's update, a cell whose step the route does not contain, a reverse edge for example, is only scaled by the evaporation factor |
| Trails.DepositedTraversed | ACO.py:76-79 | after one ant's update, a cell whose step the tour contains is the scaled old value plus exactly one deposit |
| Trails.DepositedPositive | app.py:82-88 | a positive trail stays positive under a non-negative deposit, whether or not it is halved |
| Trails.AddDeposits | ACO.py:76-79 | the in-place loop adds the deposit to cell (a, b) once per occurrence of the step a -> b in the route, and changes no other cell |
| Trails.HalvingsOfPolicies | ACO.py:130-141 | over a run of k ants, the console script halves k - 1 times for k >= 2 (k times otherwise); the web app halves exactly once for k >= 1 (app.py:140-143) |
| Trails.UntraversedCellDecays | app.py:138-143 | a cell no ant travels ends at its initial value halved once per evaporating ant |
| Trails.TrailStaysPositive | ACO.py:130-141 | from a positive trail, ants with non-negative deposits keep every entry positive |
| Tours.PickedAtSamePrefix | ACO.py:89-101 | whether station k of a route was the wheel's pick depends only on the first k + 1 stations |
| Tours.PicksExtend | ACO.py:95-101 | appending the wheel's pick to a walk of picks gives a walk of picks |
| Tours.TourCloses | ACO.py:103-105 | a walk of distinct picks that stopped because it was full or the wheel gave -1, closed with the start, is a tour |
| Tours.RecordedExtend | ACO.py:119-141 | appending a correctly recorded ant to a recorded run gives a recorded run |
| Tours.RecordedDepositPositive | ACO.py:108 | with non-negative distances a recorded ant's deposit 1 / distance is positive |
| Tours.RecordedTrailPositive | app.py:140-143 | the trail ant k of a recorded run leaves is positive everywhere |
| Tours.RecordedTrailsPositive | ACO.py:130-141 | every trail a recorded run leaves is positive everywhere |
| Tours.TrailBeforeAntPositive | ACO.py:122-124 | the trail ant k of a recorded run travels on is positive everywhere |
| Tours.LastRecordedTrail | app.py:140-143 | the trail after the last ant of a recorded run is the trail the whole run leaves |
| Aco.EfficiencyMatrix | ACO.py:31-37 | entry (i, j) is 1 / d[current][j] when i != j and that distance is positive, else 0; so row i is the desirability row with column i excluded |
| Aco.InitializePheromoneMatrix | ACO.py:40-41 | a new n-by-n matrix holding the all-ones trail |
| Aco.ActualProbabilities | ACO.py:46-50 | the score vector is the row-0 scores `eff[0][i]^2 * pher[0][i]` with visited stations at 0 |
| Aco.CumulativeProbabilities | ACO.py:57-61 | the loop's array holds the running totals of the shares |
| Aco.ProbabilityMatrix | ACO.py:44-63 | it returns the scores, the shares (scores over total when the total is positive, else zeros) and their running totals |
| Aco.UpdateAfterAnt | ACO.py:74-81 | the same matrix comes back, and each cell has gained the deposit once per occurrence of its step in the route |
| Aco.NextStation | ACO.py:90-95 | the station chosen is the wheel's pick from the console script's step distribution at the current station |
| Aco.WalkStep | ACO.py:90-101 | a step either reports that the ant is stuck or extends the walk of picks by an unvisited station |
| Aco.Walk | ACO.py:85-101 | the walk before the return starts at the start, repeats no station, follows the wheel's picks, stops only when full or stuck, and its total is the route distance so far |
| Aco.AntTravel | ACO.py:84-113 | the route is a tour of the console script over the current trail; its total is the route distance including the closing edge; its labels spell the route; the deposit is 1 / total, absent when the total is 0 |
| Aco.NextTrail | ACO.py:130-141 | the trail after ant k is the deposits added to half the trail; for ant index 1 the same matrix is updated in place, for every other ant a fresh matrix is returned and the old one is left unchanged |
| Aco.RunAnts | ACO.py:116-141 | each ant is recorded with its tour over the trail left by the ants before it, its distance, labels, deposit, and the trail after the console schedule; a shorter run means the next ant's tour had distance 0 |
| Aco.StationZeroNeverPicked | ACO.py:35-50 | with a non-negative row 0 of the trail and a positive draw, the console script's wheel never picks station 0 |
| Aco.NeverReachesStationZero | ACO.py:89-105 | a console tour from a start other than 0, with positive draws and row 0 of the trail non-negative, never contains station 0 and is at most n long, so never complete |
| Aco.NeverStuckFromStationZero | ACO.py:44-71 | with station 0 visited, positive off-diagonal distances and a positive row 0 of the trail, the wheel never returns -1 before all stations are visited |
| Aco.WalkFromStationZeroIsFull | ACO.py:89-101 | under those conditions the walk from station 0 stops only when all n stations are visited |
| Aco.FullTourFromStationZero | ACO.py:84-105 | under those conditions a console tour from station 0 has n + 1 entries and visits every station |
| Aco.NoAntCompletesAwayFromStationZero | ACO.py:116-124 | in a recorded console run from a start other than 0, with positive draws and non-negative distances, no ant visits station 0 |
| Aco.EveryAntCompletesFromStationZero | ACO.py:116-124 | in a recorded console run from station 0, with non-negative distances that are positive off the diagonal and draws in [0, 1], every ant visits every station and returns |
| Aco.UntraversedCellHalvedPerAnt | ACO.py:130-141 | in a console run of k ants an edge no ant travels ends at 1 halved k - 1 times (once when k = 1) |
| App.Efficiency | app.py:18-24 | the vector is the desirability row of the current station with the current station itself at 0 |
| App.Probability | app.py:27-40 | the shares are the scores `eff[j]^2 * trail[current][j]^2`, with visited stations at 0, divided by their total when it is positive and unchanged otherwise; the running totals are their cumulative sum |
| App.NextStation | app.py:57-58 | the station chosen is the wheel's pick from the web app's step distribution at the current station |
| App.WalkStep | app.py:57-61 | a step either reports that the ant is stuck or extends the walk of picks by an unvisited station |
| App.Walk | app.py:52-65 | the walk before the return starts at the start, repeats no station, follows the wheel's picks, stops only when full or stuck, and its total is the route distance so far |
| App.AntTravel | app.py:51-74 | the route is a tour of the web app over the trail; its total is the route distance including the closing edge; its labels spell the route; the deposit is 1 / total, absent when the total is 0 |
| App.UpdatePheromone | app.py:77-90 | the returned matrix is the input, halved when asked, plus the deposit once per occurrence of each step in the route; the input is a value and is not changed |
| App.RunColony | app.py:125-143 | each ant is recorded with its tour over the trail left by the ants before it, its distance, labels, deposit, and the trail after the web-app schedule; a shorter run means the next ant's tour had distance 0 |
| App.NeverStuckWhenConnected | app.py:27-48 | with positive off-diagonal distances and a current trail row without zeros, the wheel never returns -1 before all stations are visited |
| App.WalkIsFullWhenConnected | app.py:56-61 | under those conditions a walk stops only when all n stations are visited |
| App.FullTourWhenConnected | app.py:51-69 | with positive off-diagonal distances, a trail without zeros and draws in [0, 1], a tour from any start has n + 1 entries and visits every station |
| App.EveryAntCompletesTour | app.py:127-132 | in a recorded run with non-negative distances, positive off-diagonal distances and draws in [0, 1], every ant visits every station and returns |
| App.UntraversedCellHalvedOnce | app.py:138-143 | in a run of at least one ant an edge no ant travels ends at 0.5: it is halved once, by the first ant |

## Left out

- Console input (`get_input`, ACO.py:9-28) and the script entry point with its fixed two ants (ACO.py:146-149): this is I/O. The run takes the ant count, distances, start and labels as parameters.
- Every `print` in `run_ants` and every Streamlit widget, expander and `st.write` (app.py:97-146): presentation only. The input bounds of the web form (3 to 10 stations, 1 to 20 ants) are not model requirements.
- `random.random()`: replaced by explicit draws, one sequence per ant. `Aco.RunAnts` and `App.RunColony` require at least n - 1 draws per ant, the most a tour can use. The draws' range [0, 1) is not required by the operations. Only the lemmas that need it assume it, as [0, 1] or as positive draws.
- Floating point: distances, scores and trails are Dafny reals. IEEE rounding, numpy dtypes, `np.sum`'s summation order and vectorisation are not modelled. `np.cumsum` is the running-total function itself, and `np.copy`, `np.ones` and `0.5 * matrix` are their mathematical meaning.
- Aco.AntTravel: a tour of distance 0 makes numpy return an infinite deposit with a warning. The model returns no deposit (`None`) instead, and `Aco.RunAnts` stops at that ant. The continuation with an infinite trail is not modelled.
- App.AntTravel: the same as above for the web app; `App.RunColony` stops at such an ant.
- Stations.StationLabels: labels are modelled only while 65 + n stays below the surrogate range (code 0xD800), which Dafny characters require. They are letters only up to n = 26.
- The recorded `trail` of each ant is the matrix the source prints after that ant's update. It is kept as a value in `AntResult`.
