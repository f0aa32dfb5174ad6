/** The leader-election signal controller of `run` in traci_tls/runner.py.

    Each iteration of the control loop takes, from the simulator, the ids
    that departed and arrived since the previous step and the positions of
    the cars; it updates the active set, runs the bootstrap test, and, once a
    leader exists, checks the nearest car on the axis perpendicular to the
    leader's, re-electing and commanding a new phase when that car is farther
    than R or the dwell timeout has run out. `bootstrap` and `leader_id` of
    the source always change together (`leader_id` is None exactly while
    `bootstrap` holds), so they are one `Mode` here. */
module Controller {
  import opened Wrappers
  import opened VehicleIds
  import opened Ranking

  /** Dwell timeout, in loop iterations. */
  const TIMEOUT: int := 60
  /** Proximity radius; squared distances are compared with R * R. */
  const R: nat := 100
  /** The phase `run` commands before its loop: `setPhase("0", 1)`. */
  const InitialPhase: nat := 1

  datatype Mode = Bootstrapping | Tracking(leaderId: string)

  /** The locals `run` carries from one iteration to the next. */
  datatype State = State(active: set<string>, mode: Mode, timeout: int)

  /** What the simulator reports for one `simulationStep`. */
  datatype TickInput = TickInput(departed: set<string>, arrived: set<string>, positions: map<string, Pos>)

  /** One iteration: either an exception escapes `run` (with the locals as
      they were when it was raised), or the iteration completes, possibly
      with a `setPhase` command. */
  datatype StepResult = Crashed(fault: Fault, at: State) | Stepped(next: State, command: Option<nat>)

  const Initial: State := State({}, Bootstrapping, TIMEOUT)

  /** `order` lists the set `s` once each: an iteration order of a Python set. */
  ghost predicate IsEnumeration(order: seq<string>, s: set<string>) {
    (forall i, j :: 0 <= i < j < |order| ==> order[i] != order[j])
    && (forall c :: c in order <==> c in s)
  }

  /** The active set after a step: union with the departed ids, then removal
      of the ids that are both active and arrived. */
  function UpdateActive(active: set<string>, departed: set<string>, arrived: set<string>): (r: set<string>)
    ensures r == (active + departed) - arrived
    ensures departed == {} && arrived == {} ==> r == active
  {
    var merged := active + departed;
    merged - (merged * arrived)
  }

  /** The query for the leader's contender: left/right cars ('UD') for an
      up/down leader, up/down cars ('LR') for every other leader. */
  function PerpQuery(leaderId: string): Query {
    if IsVertical(leaderId) then UD else LR
  }

  /** The phase commanded when a leader is replaced: 0 when the old leader was
      an up/down car, 1 otherwise. */
  function ElectionPhase(oldLeader: string): nat {
    if IsVertical(oldLeader) then 0 else 1
  }

  /** The mode after `if calc_dist(active_list)[1] < R and bootstrap`. */
  function AfterBootstrapTest(mode: Mode, nearest: Entry): Mode {
    if nearest.dist < R * R && mode.Bootstrapping? then Tracking(nearest.car) else mode
  }

  /** One iteration of the loop of `run`, visiting the active cars in `order`. */
  function Step(st: State, t: TickInput, order: seq<string>): StepResult {
    var active := UpdateActive(st.active, t.departed, t.arrived);
    match Closest(order, t.positions, Nearest)
    case Err(f) => Crashed(f, State(active, st.mode, st.timeout))
    case Ok(nearest) =>
      var mode := AfterBootstrapTest(st.mode, nearest);
      if mode.Bootstrapping? then Stepped(State(active, mode, st.timeout - 1), None)
      else
        match Closest(order, t.positions, PerpQuery(mode.leaderId))
        case Err(f) => Crashed(f, State(active, mode, st.timeout))
        case Ok(perp) =>
          if perp.dist > R * R || st.timeout <= 0 then
            Stepped(State(active, Tracking(perp.car), TIMEOUT - 1), Some(ElectionPhase(mode.leaderId)))
          else
            Stepped(State(active, mode, st.timeout - 1), None)
  }

  // ---------------------------------------------------------------------
  // Properties of one iteration

  /** The timeout restarts at TIMEOUT exactly on a re-election, and every
      completed iteration, bootstrap ones included, takes one off it. */
  lemma TimeoutBookkeeping(st: State, t: TickInput, order: seq<string>)
    requires Step(st, t, order).Stepped?
    ensures var r := Step(st, t, order);
      (r.command.Some? ==> r.next.timeout == TIMEOUT - 1)
      && (r.command.None? ==> r.next.timeout == st.timeout - 1)
  {
  }

  /** Once a leader exists there is always one: bootstrap never comes back. */
  lemma TrackingIsPermanent(st: State, t: TickInput, order: seq<string>)
    requires st.mode.Tracking?
    ensures Step(st, t, order).Stepped? ==> Step(st, t, order).next.mode.Tracking?
    ensures Step(st, t, order).Crashed? ==> Step(st, t, order).at.mode == st.mode
  {
  }

  /** Every iteration that completes had a nearest car: the active set was
      not empty and every active car had a position. Otherwise `run` dies on
      the first query, whatever its mode. */
  lemma CompletedStepNeedsCars(st: State, t: TickInput, order: seq<string>)
    requires IsEnumeration(order, UpdateActive(st.active, t.departed, t.arrived))
    ensures var a := UpdateActive(st.active, t.departed, t.arrived);
      a == {} ==> Step(st, t, order) == Crashed(NoCandidate(Nearest), State(a, st.mode, st.timeout))
    ensures var a := UpdateActive(st.active, t.departed, t.arrived);
      (exists c :: c in a && c !in t.positions) ==>
        Step(st, t, order).Crashed? && Step(st, t, order).fault.Unresolvable?
        && Step(st, t, order).fault.car in a && Step(st, t, order).fault.car !in t.positions
  {
    var a := UpdateActive(st.active, t.departed, t.arrived);
    assert |order| > 0 ==> order[0] in a;
    if exists c :: c in a && c !in t.positions {
      var c :| c in a && c !in t.positions;
      assert c in order;
      assert !Resolvable(order, t.positions);
    }
  }

  /** The bootstrap state ends exactly when some active car is nearer than R.
      Unless the same iteration goes on to re-elect, the leader is then the
      nearest active car. A bootstrap iteration that stays in bootstrap
      commands nothing. */
  lemma BootstrapExit(st: State, t: TickInput, order: seq<string>)
    requires st.mode.Bootstrapping?
    requires IsEnumeration(order, UpdateActive(st.active, t.departed, t.arrived))
    requires Step(st, t, order).Stepped?
    ensures var a := UpdateActive(st.active, t.departed, t.arrived);
      a <= t.positions.Keys
      && (Step(st, t, order).next.mode.Tracking? <==> exists c :: c in a && SqDist(t.positions[c]) < R * R)
    ensures var r := Step(st, t, order);
      r.next.mode.Bootstrapping? ==> r.command.None?
    ensures var a := UpdateActive(st.active, t.departed, t.arrived); var r := Step(st, t, order);
      r.next.mode.Tracking? && r.command.None? ==>
        r.next.mode.leaderId in a
        && forall c :: c in a ==> SqDist(t.positions[r.next.mode.leaderId]) <= SqDist(t.positions[c])
  {
    var a := UpdateActive(st.active, t.departed, t.arrived);
    var nearest := Closest(order, t.positions, Nearest).value;
    ClosestIsEarliestNearest(order, t.positions, Nearest);
    forall c | c in a ensures c in t.positions {
      var i :| 0 <= i < |order| && order[i] == c;
    }
    var i :| 0 <= i < |order| && order[i] == nearest.car && nearest.dist == SqDist(t.positions[order[i]]);
    if exists c :: c in a && SqDist(t.positions[c]) < R * R {
      var c :| c in a && SqDist(t.positions[c]) < R * R;
      var j :| 0 <= j < |order| && order[j] == c;
      assert nearest.dist <= SqDist(t.positions[order[j]]);
    }
    forall c | c in a ensures nearest.dist <= SqDist(t.positions[c]) {
      var j :| 0 <= j < |order| && order[j] == c;
    }
  }

  /** The iteration that leaves bootstrap elects the nearest car without
      commanding a phase and without restarting the timeout, and then, in the
      same iteration, runs the contender test on the axis opposite that car's:
      it re-elects exactly when the contender is farther than R or the
      timeout, still counting down from the start of `run`, has run out. */
  lemma LeavingBootstrap(st: State, t: TickInput, order: seq<string>)
    requires st.mode.Bootstrapping?
    requires Step(st, t, order).Stepped? && Step(st, t, order).next.mode.Tracking?
    ensures Closest(order, t.positions, Nearest).Ok?
    ensures var n := Closest(order, t.positions, Nearest).value; var q := PerpQuery(n.car);
      n.dist < R * R
      && Closest(order, t.positions, q).Ok?
      && (Step(st, t, order).command.Some? <==>
            Closest(order, t.positions, q).value.dist > R * R || st.timeout <= 0)
    ensures var n := Closest(order, t.positions, Nearest).value; var r := Step(st, t, order);
      r.command.Some? ==>
        r.command == Some(ElectionPhase(n.car))
        && r.next == State(UpdateActive(st.active, t.departed, t.arrived),
                           Tracking(Closest(order, t.positions, PerpQuery(n.car)).value.car), TIMEOUT - 1)
    ensures var n := Closest(order, t.positions, Nearest).value; var r := Step(st, t, order);
      r.command.None? ==>
        r.next == State(UpdateActive(st.active, t.departed, t.arrived), Tracking(n.car), st.timeout - 1)
  {
  }

  /** While no leader has been elected, the timeout counts down by one per
      iteration from TIMEOUT: after k bootstrap iterations it is TIMEOUT - k,
      so an iteration that leaves bootstrap after TIMEOUT or more of them
      re-elects at once (`LeavingBootstrap`). */
  lemma {:induction false} BootstrapCountsDown(ticks: seq<TickInput>, orders: seq<seq<string>>)
    requires |orders| == |ticks|
    requires Replay(ticks, orders).fault.None? && Replay(ticks, orders).state.mode.Bootstrapping?
    ensures Replay(ticks, orders).state.timeout == TIMEOUT - |ticks|
    decreases |ticks|
  {
    if ticks != [] {
      var n := |ticks| - 1;
      var prev := Replay(ticks[..n], orders[..n]);
      assert prev.fault.None?;
      var r := Step(prev.state, ticks[n], orders[n]);
      assert r.Stepped? && r.next.mode.Bootstrapping?;
      if prev.state.mode.Tracking? {
        TrackingIsPermanent(prev.state, ticks[n], orders[n]);
      }
      BootstrapCountsDown(ticks[..n], orders[..n]);
    }
  }

  /** Once tracking, the contender is always looked for on the axis opposite
      the leader's: left/right cars for an up/down leader, up/down cars
      otherwise. A re-election fires exactly when that contender is farther
      than R or the timeout has run out; it makes the contender leader and
      commands phase 0 (after an up/down leader) or 1 (otherwise). Without
      a re-election the leader stays. */
  lemma TrackingTransition(st: State, t: TickInput, order: seq<string>)
    requires st.mode.Tracking?
    requires Step(st, t, order).Stepped?
    ensures var q := PerpQuery(st.mode.leaderId);
      Closest(order, t.positions, q).Ok?
      && (Step(st, t, order).command.Some? <==>
            Closest(order, t.positions, q).value.dist > R * R || st.timeout <= 0)
    ensures var r := Step(st, t, order);
      r.command.Some? ==>
        r.command == Some(ElectionPhase(st.mode.leaderId))
        && r.next.mode == Tracking(Closest(order, t.positions, PerpQuery(st.mode.leaderId)).value.car)
    ensures var r := Step(st, t, order);
      r.command.None? ==> r.next.mode == st.mode
  {
  }

  /** A newly elected leader is an active car of the axis opposite the old
      leader's, nearest to the centre among the active cars of that axis:
      after phase 0 it is a left/right car, after phase 1 an up/down car. */
  lemma ElectedLeader(st: State, t: TickInput, order: seq<string>)
    requires IsEnumeration(order, UpdateActive(st.active, t.departed, t.arrived))
    requires Step(st, t, order).Stepped? && Step(st, t, order).command.Some?
    ensures var a := UpdateActive(st.active, t.departed, t.arrived); var r := Step(st, t, order);
      r.next.mode.Tracking? && r.next.mode.leaderId in a && r.next.mode.leaderId in t.positions
      && (r.command == Some(0) ==> IsLateral(r.next.mode.leaderId))
      && (r.command == Some(1) ==> IsVertical(r.next.mode.leaderId))
      && (r.command == Some(0) || r.command == Some(1))
    ensures var a := UpdateActive(st.active, t.departed, t.arrived); var r := Step(st, t, order);
      var q := if r.command == Some(0) then UD else LR;
      forall c :: c in a && Matches(q, c) && c in t.positions ==>
        SqDist(t.positions[r.next.mode.leaderId]) <= SqDist(t.positions[c])
  {
    var nearest := Closest(order, t.positions, Nearest).value;
    var mode := AfterBootstrapTest(st.mode, nearest);
    var q := PerpQuery(mode.leaderId);
    ClosestIsEarliestNearest(order, t.positions, q);
    var perp := Closest(order, t.positions, q).value;
    assert perp.car in order;
    forall c | c in UpdateActive(st.active, t.departed, t.arrived) && Matches(q, c) && c in t.positions
      ensures perp.dist <= SqDist(t.positions[c])
    {
      var j :| 0 <= j < |order| && order[j] == c;
    }
  }

  /** An iteration fails after the nearest-car query only when the leader
      has no contender at all: no active car of the opposite axis. */
  lemma MissingContenderCrashes(st: State, t: TickInput, order: seq<string>)
    requires IsEnumeration(order, UpdateActive(st.active, t.departed, t.arrived))
    requires Closest(order, t.positions, Nearest).Ok?
    requires AfterBootstrapTest(st.mode, Closest(order, t.positions, Nearest).value).Tracking?
    ensures var q := PerpQuery(AfterBootstrapTest(st.mode, Closest(order, t.positions, Nearest).value).leaderId);
      Step(st, t, order).Crashed? <==> forall c :: c in UpdateActive(st.active, t.departed, t.arrived) ==> !Matches(q, c)
    ensures Step(st, t, order).Crashed? ==>
      Step(st, t, order).fault ==
        NoCandidate(PerpQuery(AfterBootstrapTest(st.mode, Closest(order, t.positions, Nearest).value).leaderId))
  {
    var a := UpdateActive(st.active, t.departed, t.arrived);
    var q := PerpQuery(AfterBootstrapTest(st.mode, Closest(order, t.positions, Nearest).value).leaderId);
    ClosestFailsIffNoCandidate(order, t.positions, q);
    assert forall c :: c in a <==> exists i :: 0 <= i < |order| && order[i] == c;
  }

  // ---------------------------------------------------------------------
  // Concrete iterations

  /** A lone left/right car 90 units from the centre ends bootstrap, and the
      same iteration then asks for the nearest up/down car; there is none, so
      `next(...)` raises StopIteration and `run` stops. */
  lemma LoneCarEndsBootstrapThenCrashes()
    ensures Step(Initial, TickInput({"right_0"}, {}, map["right_0" := Pos(600, 510)]), ["right_0"])
            == Crashed(NoCandidate(LR), State({"right_0"}, Tracking("right_0"), TIMEOUT))
  {
    RouteIdsNameOneAxis("0");
    var cars, positions := ["right_0"], map["right_0" := Pos(600, 510)];
    var e := Entry("right_0", 8100);
    assert "right_" + "0" == "right_0";
    assert Resolvable(cars, positions);
    var l := Measure(cars, positions).value;
    assert |l| == 1 && l[0] == e;
    assert l == [e];
    assert [e][1..] == [];
    assert SortByDist([e]) == [e];
    assert !Matches(LR, e.car);
    assert FirstMatch([e], LR) == None;
    assert Closest(cars, positions, Nearest) == Ok(e);
    assert Closest(cars, positions, LR) == Err(NoCandidate(LR));
  }

  /** An up/down leader keeps the signal while the nearest left/right car is
      within R (here 80 from the centre) and the timeout has not run out. */
  lemma NearContenderKeepsLeader()
    ensures Step(State({"up_1", "left_3"}, Tracking("up_1"), 30),
                 TickInput({}, {}, map["up_1" := Pos(510, 520), "left_3" := Pos(430, 510)]),
                 ["up_1", "left_3"])
            == Stepped(State({"up_1", "left_3"}, Tracking("up_1"), 29), None)
  {
    RouteIdsNameOneAxis("1");
    RouteIdsNameOneAxis("3");
    assert "up_" + "1" == "up_1";
    TwoCars(Pos(430, 510), 6400);
  }

  /** The same leader is replaced by the left/right car once that car is
      farther than R (here 150), and phase 0 is commanded. */
  lemma FarContenderTakesOver()
    ensures Step(State({"up_1", "left_3"}, Tracking("up_1"), 30),
                 TickInput({}, {}, map["up_1" := Pos(510, 520), "left_3" := Pos(360, 510)]),
                 ["up_1", "left_3"])
            == Stepped(State({"up_1", "left_3"}, Tracking("left_3"), TIMEOUT - 1), Some(0))
  {
    RouteIdsNameOneAxis("1");
    RouteIdsNameOneAxis("3");
    assert "up_" + "1" == "up_1";
    TwoCars(Pos(360, 510), 22500);
  }

  /** Once the timeout has run out the leader is replaced even though the
      left/right car is within R. */
  lemma TimeoutForcesReelection()
    ensures Step(State({"up_1", "left_3"}, Tracking("up_1"), 0),
                 TickInput({}, {}, map["up_1" := Pos(510, 520), "left_3" := Pos(430, 510)]),
                 ["up_1", "left_3"])
            == Stepped(State({"up_1", "left_3"}, Tracking("left_3"), TIMEOUT - 1), Some(0))
  {
    RouteIdsNameOneAxis("1");
    assert "up_" + "1" == "up_1";
    TwoCars(Pos(430, 510), 6400);
  }

  /** The queries of the scenarios above, with `left_3` at `p`. */
  lemma TwoCars(p: Pos, d: nat)
    requires SqDist(p) == d && d > 100
    ensures var positions := map["up_1" := Pos(510, 520), "left_3" := p];
      Closest(["up_1", "left_3"], positions, Nearest) == Ok(Entry("up_1", 100))
      && Closest(["up_1", "left_3"], positions, UD) == Ok(Entry("left_3", d))
  {
    RouteIdsNameOneAxis("1");
    RouteIdsNameOneAxis("3");
    assert "up_" + "1" == "up_1" && "left_" + "3" == "left_3";
    var cars, positions := ["up_1", "left_3"], map["up_1" := Pos(510, 520), "left_3" := p];
    var a, b := Entry("up_1", 100), Entry("left_3", d);
    assert Resolvable(cars, positions);
    var l := Measure(cars, positions).value;
    assert l[0] == a && l[1] == b;
    assert l == [a, b];
    assert [a, b][1..] == [b] && [b][1..] == [];
    assert SortByDist([b]) == [b];
    assert Insert(a, [b]) == [a, b];
    assert SortByDist([a, b]) == [a, b];
    assert !Matches(UD, a.car) && Matches(UD, b.car);
    assert FirstMatch([a, b], UD) == Some(b);
  }

  // ---------------------------------------------------------------------
  // The loop of `run`

  /** The iteration order Python uses for `for car in active_list`: some
      order that lists every element once. */
  method Enumerate(s: set<string>) returns (order: seq<string>)
    ensures IsEnumeration(order, s)
  {
    order := [];
    var rest := s;
    while rest != {}
      invariant rest <= s
      invariant forall c :: c in order <==> c in s && c !in rest
      invariant forall i, j :: 0 <= i < j < |order| ==> order[i] != order[j]
      decreases rest
    {
      var c :| c in rest;
      assert c !in order;
      ghost var before := order;
      order := order + [c];
      assert forall i :: 0 <= i < |before| ==> order[i] == before[i] && order[i] in before;
      rest := rest - {c};
    }
  }

  /** One iteration of the loop of `run`, written as the source does it: the
      active set is updated in place, one arrived car at a time, and every
      query is a call of `calc_dist`. `order` is the iteration order of the
      updated active set that all the queries of this iteration share. */
  method Tick(st: State, t: TickInput) returns (r: StepResult, order: seq<string>)
    ensures IsEnumeration(order, UpdateActive(st.active, t.departed, t.arrived))
    ensures r == Step(st, t, order)
  {
    var active := st.active + t.departed;
    ghost var merged := active;
    var leaving := active * t.arrived;
    while leaving != {}
      invariant leaving <= merged * t.arrived
      invariant active == merged - (merged * t.arrived - leaving)
      decreases leaving
    {
      var car :| car in leaving;
      active := active - {car};
      leaving := leaving - {car};
    }
    order := Enumerate(active);

    var mode := st.mode;
    var timeout := st.timeout;
    var nearest := CalcDist(order, t.positions, Nearest);
    if nearest.Err? {
      return Crashed(nearest.error, State(active, mode, timeout)), order;
    }
    if nearest.value.dist < R * R && mode.Bootstrapping? {
      var again := CalcDist(order, t.positions, Nearest);
      mode := Tracking(again.value.car);
    }
    var command: Option<nat> := None;
    if mode.Tracking? {
      var perp;
      if IsVertical(mode.leaderId) {
        perp := CalcDist(order, t.positions, UD);
      } else {
        perp := CalcDist(order, t.positions, LR);
      }
      if perp.Err? {
        return Crashed(perp.error, State(active, mode, timeout)), order;
      }
      if perp.value.dist > R * R || timeout <= 0 {
        if IsVertical(mode.leaderId) {
          var elected := CalcDist(order, t.positions, UD);
          mode := Tracking(elected.value.car);
          command := Some(0);
        } else {
          var elected := CalcDist(order, t.positions, LR);
          mode := Tracking(elected.value.car);
          command := Some(1);
        }
        timeout := TIMEOUT;
      }
    }
    timeout := timeout - 1;
    r := Stepped(State(active, mode, timeout), command);
  }

  /** What `run` has produced after the given iterations: the locals, the
      phase commands so far (the initial one first), and the exception that
      ended the loop, if one did. */
  datatype Trace = Trace(state: State, commands: seq<nat>, fault: Option<Fault>)

  function Replay(ticks: seq<TickInput>, orders: seq<seq<string>>): Trace
    requires |orders| == |ticks|
    decreases |ticks|
  {
    if ticks == [] then Trace(Initial, [InitialPhase], None)
    else
      var n := |ticks| - 1;
      var prev := Replay(ticks[..n], orders[..n]);
      if prev.fault.Some? then prev else Advance(prev, Step(prev.state, ticks[n], orders[n]))
  }

  /** A trace that has not failed, after one more iteration. */
  function Advance(prev: Trace, r: StepResult): Trace {
    match r
    case Crashed(f, at) => Trace(at, prev.commands, Some(f))
    case Stepped(next, command) => Trace(next, prev.commands + Issued(command), None)
  }

  /** Replaying one more iteration after a run that has not failed applies `Step` once more. */
  lemma ReplayOneMore(ticks: seq<TickInput>, orders: seq<seq<string>>, order: seq<string>)
    requires |orders| < |ticks|
    requires Replay(ticks[..|orders|], orders).fault.None?
    ensures var prev := Replay(ticks[..|orders|], orders);
      Replay(ticks[..|orders| + 1], orders + [order]) == Advance(prev, Step(prev.state, ticks[|orders|], order))
  {
    var i := |orders|;
    var ticks' := ticks[..i + 1];
    var orders' := orders + [order];
    assert ticks'[..i] == ticks[..i];
    assert orders'[..i] == orders;
    assert ticks'[i] == ticks[i] && orders'[i] == order;
    var prev := Replay(ticks[..i], orders);
    assert Replay(ticks', orders') == Advance(prev, Step(prev.state, ticks[i], order));
  }

  /** Each iteration visited the cars that were active in it: `orders[k]` is
      an iteration order of the active set of iteration k, after its update. */
  ghost predicate VisitsActive(ticks: seq<TickInput>, orders: seq<seq<string>>)
    requires |orders| <= |ticks|
  {
    forall k {:trigger ActiveIn(ticks, orders, k)} :: 0 <= k < |orders| ==> IsEnumeration(orders[k], ActiveIn(ticks, orders, k))
  }

  /** The active set of iteration k of a run, after its update. */
  function ActiveIn(ticks: seq<TickInput>, orders: seq<seq<string>>, k: nat): set<string>
    requires k < |ticks| && k <= |orders|
  {
    UpdateActive(Replay(ticks[..k], orders[..k]).state.active, ticks[k].departed, ticks[k].arrived)
  }

  /** An iteration that visits the active set of the run so far extends a
      run that visited its active sets. */
  lemma VisitsActiveOneMore(ticks: seq<TickInput>, orders: seq<seq<string>>, order: seq<string>)
    requires |orders| < |ticks|
    requires VisitsActive(ticks, orders)
    requires IsEnumeration(order, ActiveIn(ticks, orders, |orders|))
    ensures VisitsActive(ticks, orders + [order])
  {
    var orders' := orders + [order];
    assert orders'[..|orders|] == orders[..|orders|];
    forall k | 0 <= k <= |orders|
      ensures ActiveIn(ticks, orders', k) == ActiveIn(ticks, orders, k)
    {
      assert orders'[..k] == orders[..k];
    }
  }

  /** Every id the simulator reports as departed names exactly one axis. */
  predicate AllSingleAxis(ticks: seq<TickInput>) {
    forall k, c :: 0 <= k < |ticks| && c in ticks[k].departed ==> SingleAxis(c)
  }

  /** The phase that favours a leader's own axis: 1 for up/down, 0 otherwise. */
  function FavouredPhase(leaderId: string): nat {
    if IsVertical(leaderId) then 1 else 0
  }

  /** The commands after the initial one never repeat the previous one. */
  predicate Alternating(commands: seq<nat>) {
    forall k :: 1 <= k < |commands| - 1 ==> commands[k] != commands[k + 1]
  }

  /** The commands a completed iteration appends to those issued so far. */
  function Issued(command: Option<nat>): seq<nat> {
    if command.Some? then [command.value] else []
  }

  /** The invariant of the loop of `run` on ids that name one axis: after the
      first re-election the last phase commanded favours the leader's axis,
      and the re-election commands alternate. */
  predicate PhaseFollowsLeader(st: State, commands: seq<nat>) {
    && (forall c :: c in st.active ==> SingleAxis(c))
    && (st.mode.Tracking? ==> SingleAxis(st.mode.leaderId))
    && (|commands| > 1 ==> st.mode.Tracking? && commands[|commands| - 1] == FavouredPhase(st.mode.leaderId))
    && Alternating(commands)
  }

  /** An iteration over ids that name one axis keeps the commanded phase in
      step with the leader: a re-election commands the phase the previous
      re-election did not. */
  lemma StepKeepsPhaseFollowingLeader(st: State, t: TickInput, order: seq<string>, commands: seq<nat>)
    requires PhaseFollowsLeader(st, commands)
    requires forall c :: c in t.departed ==> SingleAxis(c)
    requires IsEnumeration(order, UpdateActive(st.active, t.departed, t.arrived))
    requires Step(st, t, order).Stepped?
    ensures PhaseFollowsLeader(Step(st, t, order).next, commands + Issued(Step(st, t, order).command))
  {
    var r := Step(st, t, order);
    if r.command.Some? {
      ElectedLeader(st, t, order);
      if |commands| > 1 {
        TrackingTransition(st, t, order);
      }
    } else if st.mode.Tracking? {
      TrackingTransition(st, t, order);
    } else {
      BootstrapExit(st, t, order);
    }
  }

  /** A completed iteration commands at most one phase, and only 0 or 1. */
  lemma StepCommandsBinary(st: State, t: TickInput, order: seq<string>)
    requires Step(st, t, order).Stepped?
    ensures forall k :: 0 <= k < |Issued(Step(st, t, order).command)| ==> Issued(Step(st, t, order).command)[k] <= 1
  {
  }

  /** The loop of `run` over the steps the simulator makes, ending early when
      an exception escapes. It commands phase 1 before the loop and only
      phases 0 and 1 after; when every vehicle id names one axis, each
      re-election commands the phase the previous one did not. */
  method Run(ticks: seq<TickInput>) returns (commands: seq<nat>, fault: Option<Fault>, final: State, orders: seq<seq<string>>)
    ensures |orders| <= |ticks|
    ensures VisitsActive(ticks, orders)
    ensures Replay(ticks[..|orders|], orders) == Trace(final, commands, fault)
    ensures fault.None? ==> |orders| == |ticks|
    ensures |commands| >= 1 && commands[0] == InitialPhase
    ensures forall k :: 0 <= k < |commands| ==> commands[k] <= 1
    ensures AllSingleAxis(ticks) ==> Alternating(commands)
  {
    var st := Initial;
    commands := [InitialPhase];
    fault := None;
    orders := [];
    var i := 0;
    while i < |ticks| && fault.None?
      invariant 0 <= i <= |ticks| && |orders| == i
      invariant Replay(ticks[..i], orders) == Trace(st, commands, fault)
      invariant VisitsActive(ticks, orders)
      invariant |commands| >= 1 && commands[0] == InitialPhase
      invariant forall k :: 0 <= k < |commands| ==> commands[k] <= 1
      invariant AllSingleAxis(ticks) ==> PhaseFollowsLeader(st, commands)
      decreases |ticks| - i
    {
      var r, order := Tick(st, ticks[i]);
      ReplayOneMore(ticks, orders, order);
      assert orders[..i] == orders;
      assert ActiveIn(ticks, orders, i) == UpdateActive(st.active, ticks[i].departed, ticks[i].arrived);
      VisitsActiveOneMore(ticks, orders, order);
      orders := orders + [order];
      match r {
        case Crashed(f, at) =>
          st, fault := at, Some(f);
        case Stepped(next, command) =>
          StepCommandsBinary(st, ticks[i], order);
          if AllSingleAxis(ticks) {
            assert forall c :: c in ticks[i].departed ==> SingleAxis(c);
            StepKeepsPhaseFollowingLeader(st, ticks[i], order, commands);
            assert PhaseFollowsLeader(next, commands + Issued(command));
          }
          commands := commands + Issued(command);
          st := next;
      }
      i := i + 1;
    }
    final := st;
  }
}
