# Leader-election traffic-signal controller

A Dafny model of the control loop in `traci_tls/runner.py`, which drives the
signal of one four-way intersection inside a SUMO traffic simulation. Every
loop iteration advances the simulation by one step and updates the set of
active vehicles from the ids that departed and arrived. It ranks the active
cars by their distance to the intersection centre (510, 510) with
`calc_dist`. While in bootstrap it waits for a car nearer than `R = 100` and
makes it leader. After that it looks at the nearest car on the axis
perpendicular to the leader's. When that car is farther than `R`, or the
dwell timeout (`TIMEOUT = 60` iterations) has run out, the controller makes
that car leader and commands phase 0 (after an up/down leader) or phase 1
(otherwise).

Files:

- `wrappers.dfy`: `Option` and `Result`.
- `vehicle_ids.dfy`: the substring test `sub in s` and the two axis tests the
  controller applies to ids: `"up"`/`"down"` and `"left"`/`"right"`.
- `ranking.dfy`: `calc_dist` and `elect_leader`. `Measure` is the append
  loop, `SortByDist` the stable sort and `FirstMatch` the selection.
  `Closest` composes them, and `Best` is an independent reference for what
  gets selected. The method `CalcDist` is the code as written, proved equal
  to `Closest`.
- `controller.dfy`: one loop iteration as the function `Step`, proved
  against by lemmas. `Tick` is the same iteration written imperatively, with
  the in-place removal of arrived cars. `Run` is the loop, proved against
  `Replay`, the fold of `Step`.

How the model stands in for the simulator and for Python:

- Each simulation step is a `TickInput`: the departed ids, the arrived ids,
  and a position map. A car missing from the map is one whose
  `getPosition` call raises.
- Distances are squared integers compared with `R * R`. The square root is
  monotone, so the sort order and every comparison with `R` stay the same.
- Python iterates a set in an order the runtime picks. `Enumerate` chooses
  some order that lists every element once. Every query of one iteration
  uses the same order, as Python does for a set that has not changed.
  Because the sort is stable, that order breaks ties: of two equally
  distant cars, the one visited first wins.
- An exception that escapes `run` is a `Crashed` result, which holds the
  locals at the moment of the raise. `run` catches nothing, so the loop
  ends there.
- `bootstrap` and `leader_id` always change together, so they are one value,
  `Mode = Bootstrapping | Tracking(leaderId)`.

## Behaviour of `run` worth knowing

`run` in `traci_tls/runner.py` behaves as follows, and the model keeps
each of these behaviours:

- The nearest-car query runs on every iteration, because Python evaluates
  `calc_dist(active_list)[1]` before `and bootstrap` (runner.py:155). So an empty active
  set ends the loop with an IndexError even while tracking
  (`CompletedStepNeedsCars`).
- A missing position (`getPosition` raising) is not skipped: the `try`
  guards only the `append`.
- No perpendicular candidate is not treated as "no contender": `next(...)`
  raises StopIteration and the loop ends (`MissingContenderCrashes`). A lone
  car that ends bootstrap therefore stops the loop in the same iteration
  (`LoneCarEndsBootstrapThenCrashes`).
- Leaving bootstrap commands no phase and does not reset the timeout. The
  perpendicular check then runs in the same iteration, so a re-election can
  follow at once (`BootstrapExit`, `LeavingBootstrap`). The timeout counts
  down from `TIMEOUT` during bootstrap too (`BootstrapCountsDown`), so
  leaving bootstrap after 60 or more iterations always re-elects at once.
- The timeout is tested before it is decremented. The decrement happens at
  the end of every iteration, bootstrap included (`TimeoutBookkeeping`).
- A re-election fires when the perpendicular car is FARTHER than `R`. A
  perpendicular car within `R` leaves the leader in place until the timeout
  runs out (`NearContenderKeepsLeader`, `FarContenderTakesOver`,
  `TimeoutForcesReelection`).

## Model

| member | source | states |
|---|---|---|
| `VehicleIds.IsVertical` | traci_tls/runner.py:123 | defines the up/down test `"up" in id or "down" in id`, used at runner.py:123, 167 and 176 and in `PerpQuery`; `RouteIdsNameOneAxis` states which generated ids pass it |
| `VehicleIds.IsLateral` | traci_tls/runner.py:120 | defines the left/right test `"left" in id or "right" in id`; `RouteIdsNameOneAxis` states which generated ids pass it |
| `VehicleIds.RouteIdsNameOneAxis` | traci_tls/runner.py:64-80 | the ids the route generator writes (`right_<n>`, `left_<n>`, `up_<n>`, `down_<n>`) pass exactly one of the two axis tests of `run` and `calc_dist` |
| `Ranking.SqDist` | traci_tls/runner.py:101 | the squared distance to the centre (510, 510) is a natural number, and it is zero exactly at the centre |
| `Ranking.Measure` | traci_tls/runner.py:98-110 | the loop succeeds exactly when every car has a position, and then yields one (car, distance) pair per car, in visiting order; otherwise it fails with `Unresolvable` for a car of the input that has no position |
| `Ranking.MeasureFailsAtFirstMissing` | traci_tls/runner.py:99-100 | the failure names the first car, in visiting order, that has no position |
| `Ranking.MeasureFailureSticks` | traci_tls/runner.py:99-100 | once a `getPosition` call raises, the rest of the list is never built: the failure of a prefix is the failure of the whole |
| `Ranking.SortByDist` | traci_tls/runner.py:113 | defines the stable sort by distance; `SortByDistSortedPermutation` states it is an ordered permutation and `FirstMatchOfSortIsBest` that ties keep visiting order |
| `Ranking.SortByDistSortedPermutation` | traci_tls/runner.py:113 | the sorted list is a permutation of the measured pairs, in non-decreasing distance |
| `Ranking.FirstMatch` | traci_tls/runner.py:116-123 | the selected pair is an element of the sorted list that passes the direction filter |
| `Ranking.BestNoneIffNoMatch` | traci_tls/runner.py:116-123 | the reference selection finds nothing exactly when no pair passes the filter |
| `Ranking.BestIsEarliestNearest` | traci_tls/runner.py:113-123 | the reference selection is a passing pair that is no farther than any passing pair, and strictly nearer than every passing pair before it |
| `Ranking.FirstMatchOfSortIsBest` | traci_tls/runner.py:113-123 | the first passing pair of the stable sort is the reference selection: the nearest passing car, the first visited on a tie |
| `Ranking.Closest` | traci_tls/runner.py:96-123 | `calc_dist` fails with `Unresolvable` for a car of the input that has no position; with every car resolvable, its only failure is `NoCandidate` for the query made |
| `Ranking.ClosestFailsIffNoCandidate` | traci_tls/runner.py:116-123 | with every car resolvable, `calc_dist` fails exactly when no car passes the filter: an empty set for no direction, no left/right car for 'UD', no up/down car for 'LR' |
| `Ranking.ClosestIsEarliestNearest` | traci_tls/runner.py:98-123 | a result of `calc_dist` is a car of the input that passes the filter, carries its own distance, is no farther than any passing car, and is strictly nearer than every passing car visited before it |
| `Ranking.CalcDist` | traci_tls/runner.py:96-123 | the append loop, the sort and the selection return exactly the result of `Closest`, the failing `getPosition` included |
| `Ranking.ElectLeader` | traci_tls/runner.py:127-128 | `elect_leader` fails exactly on an empty input or a missing position; otherwise it returns a car of the input with a position no farther from the centre than any other |
| `Controller.UpdateActive` | traci_tls/runner.py:150-153 | the active set after a step is `(old ∪ departed) \ arrived`; with nothing departed and nothing arrived it is unchanged |
| `Controller.PerpQuery` | traci_tls/runner.py:167-171 | defines the contender query: 'UD' for an up/down leader, 'LR' otherwise; its use is stated by `TrackingTransition` and `LeavingBootstrap` |
| `Controller.ElectionPhase` | traci_tls/runner.py:176-185 | defines the phase commanded on a re-election: 0 after an up/down leader, 1 otherwise; stated by `TrackingTransition`, `LeavingBootstrap` and `ElectedLeader` |
| `Controller.AfterBootstrapTest` | traci_tls/runner.py:155-157 | defines the mode after the bootstrap test; `BootstrapExit` states when it leaves bootstrap and whom it elects |
| `Controller.Step` | traci_tls/runner.py:147-209 | defines one loop iteration (update, bootstrap test, contender test, re-election, decrement); the lemmas below state its properties, and `Tick` is proved equal to it |
| `Controller.TimeoutBookkeeping` | traci_tls/runner.py:175-209 | a completed iteration sets the timeout to `TIMEOUT - 1` when it re-elects and to one less than before otherwise, bootstrap included |
| `Controller.TrackingIsPermanent` | traci_tls/runner.py:155-164 | once there is a leader, no iteration returns to bootstrap |
| `Controller.CompletedStepNeedsCars` | traci_tls/runner.py:155 | the unconditional nearest-car query ends the loop in every mode: an empty active set with `NoCandidate` (the IndexError of `distances[0]`, runner.py:116-117); an active car without a position ends it with `Unresolvable` for an active car |
| `Controller.BootstrapExit` | traci_tls/runner.py:155-157 | bootstrap ends exactly when some active car is nearer than `R`; staying in bootstrap commands nothing; without a same-iteration re-election the leader is the nearest active car |
| `Controller.LeavingBootstrap` | traci_tls/runner.py:155-191 | the iteration that leaves bootstrap elects a car nearer than `R`; it re-elects in the same iteration exactly when the contender on the opposite axis is farther than `R` or the timeout is at most 0, commanding `ElectionPhase` of the car just elected and restarting the timeout; otherwise the car just elected stays leader, no phase is commanded and the timeout only drops by one |
| `Controller.BootstrapCountsDown` | traci_tls/runner.py:139-209 | starting from `timeout = TIMEOUT` (line 139) and decremented at line 209, after k completed iterations still in bootstrap the timeout is `TIMEOUT - k`: it is not held during bootstrap |
| `Controller.TrackingTransition` | traci_tls/runner.py:164-191 | while tracking, the contender query is 'UD' for an up/down leader and 'LR' otherwise; a re-election happens exactly when the contender is farther than `R` or the timeout is at most 0, makes the contender leader and commands `ElectionPhase` of the old leader; otherwise the leader stays |
| `Controller.ElectedLeader` | traci_tls/runner.py:175-190 | a newly elected leader is an active car with a position; after phase 0 it is a left/right car, after phase 1 an up/down car; no active car of that axis is nearer |
| `Controller.MissingContenderCrashes` | traci_tls/runner.py:166-171 | after the nearest-car query succeeds, an iteration with a leader fails exactly when no active car is on the perpendicular axis, with `NoCandidate` for that axis's query |
| `Controller.LoneCarEndsBootstrapThenCrashes` | traci_tls/runner.py:155-171 | a single left/right car 90 from the centre ends bootstrap, and the perpendicular query then raises in the same iteration |
| `Controller.NearContenderKeepsLeader` | traci_tls/runner.py:164-191 | an up/down leader with a left/right car 80 from the centre and timeout left keeps its place; no phase is commanded and the timeout drops by one |
| `Controller.FarContenderTakesOver` | traci_tls/runner.py:175-191 | the same leader with the left/right car 150 from the centre is replaced by that car, phase 0 is commanded and the timeout restarts |
| `Controller.TimeoutForcesReelection` | traci_tls/runner.py:175-191 | with the timeout at 0 the leader is replaced even though the left/right car is within `R` |
| `Controller.Tick` | traci_tls/runner.py:147-209 | one iteration, with the arrived cars removed in place one at a time, yields exactly `Step` over an iteration order of the updated active set |
| `Controller.Enumerate` | traci_tls/runner.py:99 | the iteration order of a set lists each of its elements exactly once |
| `Controller.Replay` | traci_tls/runner.py:146-209 | defines what the loop has produced after some iterations (locals, phases commanded, the exception that ended it); `ReplayOneMore` and `BootstrapCountsDown` state its properties, and `Run` is proved equal to it |
| `Controller.VisitsActiveOneMore` | traci_tls/runner.py:150-155 | each iteration's queries visit the active set of that iteration, after its update; the property is kept as the run grows |
| `Controller.ReplayOneMore` | traci_tls/runner.py:146-209 | a run that has not failed, replayed one iteration longer, is the previous run advanced by one `Step` |
| `Controller.StepKeepsPhaseFollowingLeader` | traci_tls/runner.py:175-190 | with ids that name one axis, after the first re-election the last commanded phase favours the leader's axis, and each re-election commands the phase the previous one did not |
| `Controller.StepCommandsBinary` | traci_tls/runner.py:178-185 | an iteration commands at most one phase, and only 0 or 1 |
| `Controller.Run` | traci_tls/runner.py:130-210 | every iteration visits exactly the cars active in it, and the loop produces what `Replay` of those iterations produces: the initial command 1, then only 0 and 1; it runs every step unless an exception ends it; with ids that name one axis the re-election commands alternate |

## Left out

- `generate_routefile`: it writes the route file from `random` draws. Only
  the id format it produces is used (`RouteIdsNameOneAxis`).
- `get_options`, the `__main__` block and `traci.start`: option parsing and
  starting the simulator.
- The simulator calls are not modelled. `simulationStep`,
  `getDepartedIDList`, `getArrivedIDList` and `getPosition` become the
  `TickInput` of each step. `setPhase` becomes the list of commanded phases,
  and the traffic light id `"0"` is implicit. `traci.close` and the
  stdout flush are left out.
- `Run`: loop termination is not modelled. The source loops while
  `getMinExpectedNumber() > 0`. The model runs over the finite sequence of
  steps the simulator provides, stopping early only on an exception.
- Floating-point positions and `math.sqrt`: positions are integers, and
  squared distances are compared with `R * R`.
- `print` output, the unused `step` counter and the commented-out blocks (the
  colour changes, the `elect_leader` call and the induction-loop policy).
- `calc_dist` with a direction other than none, 'UD' or 'LR' (it returns
  None). `run` never makes such a call.
- `SortByDist`: Python's `sorted` is Timsort. It is modelled by a stable
  insertion sort. Two stable sorts by the same key return the same list.
