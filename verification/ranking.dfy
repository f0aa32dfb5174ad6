/** The proximity ranking `calc_dist` of traci_tls/runner.py: pair every
    active car with its distance to the intersection centre, sort the pairs
    by distance and take the first one that passes the direction filter.

    Distances are squared: the source compares `sqrt(dx*dx + dy*dy)` with R,
    and since the square root is monotone the order of the pairs and the
    outcome of every comparison with R are those of the squared distance
    compared with R * R. */
module Ranking {
  import opened Wrappers
  import opened VehicleIds

  /** The intersection centre hard-coded in `calc_dist`. */
  const CenterX: int := 510
  const CenterY: int := 510

  /** A vehicle position as reported by the simulator. */
  datatype Pos = Pos(x: int, y: int)

  /** One element of the `distances` list: a car and its (squared) distance. */
  datatype Entry = Entry(car: string, dist: nat)

  /** The `direction` argument: none, 'UD' or 'LR'. */
  datatype Query = Nearest | UD | LR

  /** The exceptions that escape `calc_dist`: `getPosition` failing for a car
      the simulator no longer knows, and `distances[0]` (IndexError) or
      `next(...)` (StopIteration) finding no candidate. */
  datatype Fault = Unresolvable(car: string) | NoCandidate(query: Query)

  function SqDist(p: Pos): (d: nat)
    ensures d == 0 <==> p == Pos(CenterX, CenterY)
  {
    var dx := p.x - CenterX;
    var dy := p.y - CenterY;
    dx * dx + dy * dy
  }

  /** The filter `next(...)` applies: 'UD' keeps left/right cars, 'LR' keeps
      up/down cars, no direction keeps every car. */
  predicate Matches(q: Query, car: string) {
    match q
    case Nearest => true
    case UD => IsLateral(car)
    case LR => IsVertical(car)
  }

  /** Every car has a position, so no `getPosition` call raises. */
  predicate Resolvable(cars: seq<string>, positions: map<string, Pos>) {
    forall i :: 0 <= i < |cars| ==> cars[i] in positions
  }

  /** The list the append loop of `calc_dist` builds, visiting the cars in
      `cars` order, or the failure of the first `getPosition` that raises. */
  function Measure(cars: seq<string>, positions: map<string, Pos>): (r: Result<seq<Entry>, Fault>)
    decreases |cars|
    ensures r.Ok? <==> Resolvable(cars, positions)
    ensures r.Ok? ==> |r.value| == |cars|
    ensures r.Ok? ==> forall i :: 0 <= i < |cars| ==> r.value[i] == Entry(cars[i], SqDist(positions[cars[i]]))
    ensures r.Err? ==> r.error.Unresolvable? && r.error.car in cars && r.error.car !in positions
  {
    if cars == [] then Ok([])
    else
      var n := |cars| - 1;
      assert forall i :: 0 <= i < n ==> cars[..n][i] == cars[i];
      match Measure(cars[..n], positions)
      case Err(f) => Err(f)
      case Ok(l) =>
        if cars[n] in positions then Ok(l + [Entry(cars[n], SqDist(positions[cars[n]]))])
        else Err(Unresolvable(cars[n]))
  }

  /** Once a prefix of the cars fails to measure, every longer prefix fails the same way. */
  lemma {:induction false} MeasureFailureSticks(cars: seq<string>, positions: map<string, Pos>, k: nat, n: nat)
    requires k <= n <= |cars|
    requires Measure(cars[..k], positions).Err?
    ensures Measure(cars[..n], positions) == Measure(cars[..k], positions)
    decreases n - k
  {
    if k < n {
      MeasureFailureSticks(cars, positions, k, n - 1);
      assert cars[..n][..n - 1] == cars[..n - 1];
    }
  }

  /** `getPosition` raises for the first car, in visiting order, that has no position. */
  lemma MeasureFailsAtFirstMissing(cars: seq<string>, positions: map<string, Pos>, k: nat)
    requires k < |cars| && cars[k] !in positions && Resolvable(cars[..k], positions)
    ensures Measure(cars, positions) == Err(Unresolvable(cars[k]))
  {
    assert cars[..k + 1][..k] == cars[..k];
    MeasureFailureSticks(cars, positions, k + 1, |cars|);
    assert cars[..|cars|] == cars;
  }

  predicate SortedByDist(s: seq<Entry>) {
    forall i, j :: 0 <= i < j < |s| ==> s[i].dist <= s[j].dist
  }

  /** Puts `e` before the first element that is not nearer than it. */
  function Insert(e: Entry, s: seq<Entry>): seq<Entry> {
    if s == [] then [e]
    else if e.dist <= s[0].dist then [e] + s
    else [s[0]] + Insert(e, s[1..])
  }

  /** `sorted(distances, key=lambda x: x[1])`. Python's sort is stable, and so
      is this insertion sort: of two equally distant cars the one visited
      first stays first. */
  function SortByDist(l: seq<Entry>): seq<Entry> {
    if l == [] then [] else Insert(l[0], SortByDist(l[1..]))
  }

  lemma {:induction false} InsertIsPermutation(e: Entry, s: seq<Entry>)
    ensures multiset(Insert(e, s)) == multiset(s) + multiset{e}
  {
    if s != [] && e.dist > s[0].dist {
      InsertIsPermutation(e, s[1..]);
      assert s == [s[0]] + s[1..];
    }
  }

  lemma {:induction false} InsertKeepsSorted(e: Entry, s: seq<Entry>)
    requires SortedByDist(s)
    ensures SortedByDist(Insert(e, s))
  {
    if s != [] && e.dist > s[0].dist {
      var t := Insert(e, s[1..]);
      InsertKeepsSorted(e, s[1..]);
      InsertIsPermutation(e, s[1..]);
      forall j | 0 <= j < |t| ensures s[0].dist <= t[j].dist {
        assert t[j] in multiset(t);
        if t[j] != e {
          assert t[j] in multiset(s[1..]);
          var k :| 0 <= k < |s[1..]| && s[1..][k] == t[j];
          assert s[k + 1] == t[j];
        }
      }
      assert Insert(e, s) == [s[0]] + t;
    }
  }

  /** The sorted list is a permutation of the measured pairs, in non-decreasing distance. */
  lemma {:induction false} SortByDistSortedPermutation(l: seq<Entry>)
    ensures multiset(SortByDist(l)) == multiset(l)
    ensures SortedByDist(SortByDist(l))
  {
    if l != [] {
      SortByDistSortedPermutation(l[1..]);
      InsertIsPermutation(l[0], SortByDist(l[1..]));
      InsertKeepsSorted(l[0], SortByDist(l[1..]));
      assert l == [l[0]] + l[1..];
    }
  }

  /** `next(x for x in s if ...)`, and `s[0]` for no direction: the first
      element that passes the filter. */
  function FirstMatch(s: seq<Entry>, q: Query): (r: Option<Entry>)
    ensures r.Some? ==> r.value in s && Matches(q, r.value.car)
  {
    if s == [] then None
    else if Matches(q, s[0].car) then Some(s[0])
    else FirstMatch(s[1..], q)
  }

  /** Reference definition of the selection, independent of sorting: the
      matching pair with the smallest distance, the earliest one on a tie. */
  function Best(l: seq<Entry>, q: Query): Option<Entry> {
    if l == [] then None
    else
      var rest := Best(l[1..], q);
      if !Matches(q, l[0].car) then rest
      else if rest.None? || l[0].dist <= rest.value.dist then Some(l[0])
      else rest
  }

  lemma {:induction false} BestNoneIffNoMatch(l: seq<Entry>, q: Query)
    ensures Best(l, q).None? <==> forall i :: 0 <= i < |l| ==> !Matches(q, l[i].car)
  {
    if l != [] {
      BestNoneIffNoMatch(l[1..], q);
      assert forall i :: 1 <= i < |l| ==> l[i] == l[1..][i - 1];
    }
  }

  /** `Best` picks a matching pair at least as near as every matching pair,
      and nearer than every matching pair before it. */
  lemma {:induction false} BestIsEarliestNearest(l: seq<Entry>, q: Query)
    requires Best(l, q).Some?
    ensures exists i :: 0 <= i < |l| && l[i] == Best(l, q).value && Matches(q, l[i].car)
                        && forall j :: 0 <= j < i && Matches(q, l[j].car) ==> l[j].dist > l[i].dist
    ensures forall j :: 0 <= j < |l| && Matches(q, l[j].car) ==> Best(l, q).value.dist <= l[j].dist
  {
    var rest := Best(l[1..], q);
    assert forall i :: 1 <= i < |l| ==> l[i] == l[1..][i - 1];
    if rest.Some? {
      BestIsEarliestNearest(l[1..], q);
    } else {
      BestNoneIffNoMatch(l[1..], q);
    }
    if Matches(q, l[0].car) && (rest.None? || l[0].dist <= rest.value.dist) {
      assert l[0] == Best(l, q).value;
    } else {
      var i :| 0 <= i < |l| - 1 && l[1..][i] == rest.value && Matches(q, l[1..][i].car)
                && forall j :: 0 <= j < i && Matches(q, l[1..][j].car) ==> l[1..][j].dist > l[1..][i].dist;
      assert l[i + 1] == Best(l, q).value;
    }
  }

  lemma {:induction false} FirstMatchOfInsert(e: Entry, s: seq<Entry>, q: Query)
    requires SortedByDist(s)
    ensures FirstMatch(Insert(e, s), q) ==
      if !Matches(q, e.car) then FirstMatch(s, q)
      else match FirstMatch(s, q)
        case None => Some(e)
        case Some(b) => if e.dist <= b.dist then Some(e) else Some(b)
  {
    if s != [] {
      if e.dist <= s[0].dist {
        var b := FirstMatch(s, q);
        if b.Some? {
          var k :| 0 <= k < |s| && s[k] == b.value;
          assert s[0].dist <= s[k].dist;
        }
      } else {
        FirstMatchOfInsert(e, s[1..], q);
      }
    }
  }

  /** The first matching element of the stable sort is exactly `Best`: the
      nearest matching car, the one visited first on a tie. */
  lemma {:induction false} FirstMatchOfSortIsBest(l: seq<Entry>, q: Query)
    ensures FirstMatch(SortByDist(l), q) == Best(l, q)
  {
    if l != [] {
      FirstMatchOfSortIsBest(l[1..], q);
      SortByDistSortedPermutation(l[1..]);
      FirstMatchOfInsert(l[0], SortByDist(l[1..]), q);
    }
  }

  /** What `calc_dist(cars, direction)` returns, visiting the cars in `cars`
      order: the selected pair, or the exception that escapes. */
  function Closest(cars: seq<string>, positions: map<string, Pos>, q: Query): (r: Result<Entry, Fault>)
    ensures !Resolvable(cars, positions) ==>
              r.Err? && r.error.Unresolvable? && r.error.car in cars && r.error.car !in positions
    ensures Resolvable(cars, positions) && r.Err? ==> r.error == NoCandidate(q)
  {
    match Measure(cars, positions)
    case Err(f) => Err(f)
    case Ok(l) =>
      match FirstMatch(SortByDist(l), q)
      case None => Err(NoCandidate(q))
      case Some(e) => Ok(e)
  }

  /** With every car resolvable, `calc_dist` fails exactly when no car passes the filter. */
  lemma ClosestFailsIffNoCandidate(cars: seq<string>, positions: map<string, Pos>, q: Query)
    requires Resolvable(cars, positions)
    ensures Closest(cars, positions, q).Err? <==> forall i :: 0 <= i < |cars| ==> !Matches(q, cars[i])
  {
    var l := Measure(cars, positions).value;
    FirstMatchOfSortIsBest(l, q);
    BestNoneIffNoMatch(l, q);
    assert forall i :: 0 <= i < |cars| ==> l[i].car == cars[i];
  }

  /** A successful `calc_dist` returns a car of the input that passes the
      filter, with its own distance, no farther than any car that passes the
      filter, and strictly nearer than every passing car visited before it. */
  lemma ClosestIsEarliestNearest(cars: seq<string>, positions: map<string, Pos>, q: Query)
    requires Closest(cars, positions, q).Ok?
    ensures var e := Closest(cars, positions, q).value;
      exists i :: 0 <= i < |cars| && cars[i] == e.car && Matches(q, e.car)
                  && e.dist == SqDist(positions[cars[i]])
                  && forall j :: 0 <= j < i && Matches(q, cars[j]) ==> SqDist(positions[cars[j]]) > e.dist
    ensures var e := Closest(cars, positions, q).value;
      forall j :: 0 <= j < |cars| && Matches(q, cars[j]) ==> e.dist <= SqDist(positions[cars[j]])
  {
    var l := Measure(cars, positions).value;
    FirstMatchOfSortIsBest(l, q);
    BestIsEarliestNearest(l, q);
    var i :| 0 <= i < |l| && l[i] == Best(l, q).value && Matches(q, l[i].car)
             && forall j :: 0 <= j < i && Matches(q, l[j].car) ==> l[j].dist > l[i].dist;
    assert cars[i] == l[i].car;
  }

  /** `calc_dist` as the source writes it: an append loop over the cars, a
      stable sort, then `distances[0]` or the first pair that passes the
      direction filter. */
  method CalcDist(cars: seq<string>, positions: map<string, Pos>, q: Query) returns (r: Result<Entry, Fault>)
    ensures r == Closest(cars, positions, q)
  {
    var distances: seq<Entry> := [];
    var i := 0;
    while i < |cars|
      invariant 0 <= i <= |cars|
      invariant Measure(cars[..i], positions) == Ok(distances)
    {
      var car := cars[i];
      assert cars[..i + 1][..i] == cars[..i];
      if car !in positions {
        // getPosition raises; the try block only guards the append
        MeasureFailsAtFirstMissing(cars, positions, i);
        return Err(Unresolvable(car));
      }
      distances := distances + [Entry(car, SqDist(positions[car]))];
      i := i + 1;
    }
    assert cars[..i] == cars;
    var sorted := SortByDist(distances);
    if q == Nearest {
      if |sorted| == 0 {
        r := Err(NoCandidate(q));
      } else {
        r := Ok(sorted[0]);
      }
    } else {
      match FirstMatch(sorted, q)
      case None => r := Err(NoCandidate(q));
      case Some(e) => r := Ok(e);
    }
  }

  /** `elect_leader`: the id of the nearest car. */
  function ElectLeader(cars: seq<string>, positions: map<string, Pos>): (r: Result<string, Fault>)
    ensures r.Err? <==> !Resolvable(cars, positions) || cars == []
    ensures r.Ok? ==> r.value in cars && r.value in positions
    ensures r.Ok? ==> forall j :: 0 <= j < |cars| ==> SqDist(positions[r.value]) <= SqDist(positions[cars[j]])
  {
    match Closest(cars, positions, Nearest)
    case Err(f) =>
      if Resolvable(cars, positions) then
        ClosestFailsIffNoCandidate(cars, positions, Nearest);
        Err(f)
      else Err(f)
    case Ok(e) =>
      ClosestIsEarliestNearest(cars, positions, Nearest);
      Ok(e.car)
  }
}
