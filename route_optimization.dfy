/**
 * Route planning for one truck and the assignment of trucks to districts.
 *
 * `OptimizeRouteBacktracking` narrows the bins to a working set, then runs the depth-first
 * search whose value model is `RouteSearch.Search`. The search state that
 * `optimize_route_backtracking` keeps in its local variables lives in a `Backtracker` object.
 */
module RouteOptimization {
  import opened Wrappers
  import opened Geometry
  import opened Sequences
  import opened Models
  import opened RouteSearch

  /** The start point that truck assignment uses for every route. */
  const Origin: Option<Point> := Some(Point(0.0, 0.0))

  function Locations(route: seq<WasteBin>): seq<Point>
  {
    seq(|route|, k requires 0 <= k < |route| => route[k].location)
  }

  /** The sum of the distances between consecutive bins of `route`. */
  method TotalRouteDistance(route: seq<WasteBin>, sqrt: real -> real) returns (total: real)
    ensures total == PathLength(Locations(route), sqrt)
    ensures |route| <= 1 ==> total == 0.0
  {
    total := 0.0;
    var i := 0;
    while i + 1 < |route|
      invariant route == [] ==> i == 0 && total == 0.0
      invariant route != [] ==> i < |route| && total == PathLength(Locations(route)[..i + 1], sqrt)
    {
      assert Locations(route)[..i + 2][..i + 1] == Locations(route)[..i + 1];
      total := total + Distance(route[i].location, route[i + 1].location, sqrt);
      i := i + 1;
    }
    if route != [] {
      assert Locations(route)[..i + 1] == Locations(route);
    }
  }

  /** With a square root that is never negative, no route has a negative length. */
  lemma {:induction false} PathLengthNonNegative(ls: seq<Point>, sqrt: real -> real)
    requires forall x :: 0.0 <= x ==> 0.0 <= sqrt(x)
    ensures 0.0 <= PathLength(ls, sqrt)
    decreases |ls|
  {
    if |ls| > 1 {
      PathLengthNonNegative(ls[..|ls| - 1], sqrt);
      assert 0.0 <= sqrt(SquaredDistance(ls[|ls| - 2], ls[|ls| - 1]));
    }
  }

  // ---------------------------------------------------------------------------------------
  // The working set

  function NeedingEmptying(bins: seq<WasteBin>): seq<WasteBin>
  {
    Filter(bins, (b: WasteBin) => b.emptyingNeeded)
  }

  function Levels(bins: seq<WasteBin>): (ks: seq<real>)
    reads bins
    ensures |ks| == |bins|
  {
    seq(|bins|, k requires 0 <= k < |bins| reads bins => bins[k].currentLevel)
  }

  /** A stable sort by fill level, fullest first. */
  function SortByLevel(bins: seq<WasteBin>): (r: seq<WasteBin>)
    reads bins
    ensures multiset(r) == multiset(bins)
  {
    OrderPermutes(bins, Levels(bins));
    Select(bins, Order(Levels(bins)))
  }

  /**
   * Sorting puts the fuller of two bins first; `r[a]` is the input bin at position `p[a]`, and
   * bins with the same level keep their input order.
   */
  lemma SortByLevelSorted(bins: seq<WasteBin>)
    ensures var r, p := SortByLevel(bins), Order(Levels(bins));
      && (forall a, b :: 0 <= a < b < |r| ==> r[a].currentLevel >= r[b].currentLevel)
      && (forall a :: 0 <= a < |r| ==> r[a] == bins[p[a]])
      && (forall a, b :: 0 <= a < b < |r| && r[a].currentLevel == r[b].currentLevel ==> p[a] < p[b])
  {
    OrderSpec(Levels(bins));
  }

  /**
   * The bins the search works on, before sorting: those needing emptying, narrowed to the
   * truck's own type and "Mixed" when the truck is specialised and such bins exist, or all bins
   * when none needs emptying.
   */
  function Chosen(truck: Truck, bins: seq<WasteBin>): (r: seq<WasteBin>)
    ensures forall k :: 0 <= k < |r| ==> r[k] in bins
  {
    var needing := NeedingEmptying(bins);
    var matching := Filter(needing, (b: WasteBin) => truck.Accepts(b.binType));
    var narrowed := if truck.Specialised() && matching != [] then matching else needing;
    if narrowed == [] then bins else narrowed
  }

  /** The chosen bins, fullest first. */
  function WorkingSet(truck: Truck, bins: seq<WasteBin>): (ws: seq<WasteBin>)
    reads bins
    ensures forall k :: 0 <= k < |ws| ==> ws[k] in bins
  {
    var chosen := Chosen(truck, bins);
    var ws := SortByLevel(chosen);
    assert forall k :: 0 <= k < |ws| ==> ws[k] in multiset(chosen);
    ws
  }

  lemma SameElements<T>(a: seq<T>, b: seq<T>)
    requires multiset(a) == multiset(b)
    ensures forall x :: x in a <==> x in b
  {
    forall x ensures x in a <==> x in b {
      assert x in a <==> x in multiset(a);
    }
  }

  lemma NeedingMember(bins: seq<WasteBin>, k: nat)
    requires k < |bins| && bins[k].emptyingNeeded
    ensures bins[k] in NeedingEmptying(bins)
  {
  }

  /** The working set is a non-empty selection from a non-empty input, all of it when no bin needs emptying. */
  lemma WorkingSetFromInput(truck: Truck, bins: seq<WasteBin>)
    ensures multiset(WorkingSet(truck, bins)) <= multiset(bins)
    ensures bins != [] ==> WorkingSet(truck, bins) != []
    ensures (forall k :: 0 <= k < |bins| ==> !bins[k].emptyingNeeded) ==>
      multiset(WorkingSet(truck, bins)) == multiset(bins)
  {
  }

  /** When some bin needs emptying, only bins needing emptying are in the working set. */
  lemma WorkingSetUrgent(truck: Truck, bins: seq<WasteBin>, k: nat)
    requires k < |bins| && bins[k].emptyingNeeded
    ensures forall j :: 0 <= j < |WorkingSet(truck, bins)| ==> WorkingSet(truck, bins)[j].emptyingNeeded
  {
    NeedingMember(bins, k);
    SameElements(WorkingSet(truck, bins), Chosen(truck, bins));
  }

  /**
   * Every bin that needs emptying and passes the truck's type rule is in the working set, and
   * for a general-purpose truck every bin that needs emptying is.
   */
  lemma WorkingSetCovers(truck: Truck, bins: seq<WasteBin>, k: nat)
    requires k < |bins| && bins[k].emptyingNeeded
    ensures truck.Accepts(bins[k].binType) ==> bins[k] in WorkingSet(truck, bins)
    ensures !truck.Specialised() ==> bins[k] in WorkingSet(truck, bins)
  {
    NeedingMember(bins, k);
    var needing := NeedingEmptying(bins);
    var j :| 0 <= j < |needing| && needing[j] == bins[k];
    SameElements(WorkingSet(truck, bins), Chosen(truck, bins));
  }

  /**
   * A specialised truck that accepts none of the bins needing emptying works on all of them:
   * the narrowing to its type finds nothing and the bins needing emptying are kept.
   */
  lemma WorkingSetFallback(truck: Truck, bins: seq<WasteBin>, k: nat)
    requires k < |bins| && bins[k].emptyingNeeded && truck.Specialised()
    requires forall j :: 0 <= j < |bins| && bins[j].emptyingNeeded ==> !truck.Accepts(bins[j].binType)
    ensures multiset(WorkingSet(truck, bins)) == multiset(NeedingEmptying(bins))
  {
    NeedingMember(bins, k);
    var needing := NeedingEmptying(bins);
    var matching := Filter(needing, (b: WasteBin) => truck.Accepts(b.binType));
    forall i | 0 <= i < |needing| ensures !truck.Accepts(needing[i].binType) {
      var j :| 0 <= j < |bins| && bins[j] == needing[i];
    }
    FilterNone(needing, (b: WasteBin) => truck.Accepts(b.binType));
    assert Chosen(truck, bins) == needing;
  }

  /** When some bin needs emptying and passes the truck's type rule, every chosen bin passes it. */
  lemma ChosenTypeRule(truck: Truck, bins: seq<WasteBin>, k: nat)
    requires k < |bins| && bins[k].emptyingNeeded && truck.Accepts(bins[k].binType)
    ensures forall c :: c in Chosen(truck, bins) ==> truck.Accepts(c.binType)
  {
    if truck.Specialised() {
      NeedingMember(bins, k);
      var needing := NeedingEmptying(bins);
      var j :| 0 <= j < |needing| && needing[j] == bins[k];
      var matching := Filter(needing, (b: WasteBin) => truck.Accepts(b.binType));
      assert bins[k] in matching;
      assert Chosen(truck, bins) == matching;
    }
  }

  /**
   * When some bin needs emptying and passes the truck's type rule, every bin of the working set
   * passes the type rule.
   */
  lemma WorkingSetTypeRule(truck: Truck, bins: seq<WasteBin>, k: nat)
    requires k < |bins| && bins[k].emptyingNeeded && truck.Accepts(bins[k].binType)
    ensures forall j :: 0 <= j < |WorkingSet(truck, bins)| ==> truck.Accepts(WorkingSet(truck, bins)[j].binType)
  {
    ChosenTypeRule(truck, bins, k);
    SameElements(WorkingSet(truck, bins), Chosen(truck, bins));
  }

  // ---------------------------------------------------------------------------------------
  // The search over the working set

  ghost function StopOf(truck: Truck, b: WasteBin): Stop
    reads b
  {
    Stop(b.currentLevel, truck.Accepts(b.binType), b.location)
  }

  ghost function ProblemOf(truck: Truck, ws: seq<WasteBin>, start: Option<Point>, sqrt: real -> real): (pb: Problem)
    reads ws
    ensures |pb.stops| == |ws|
  {
    Problem(seq(|ws|, k requires 0 <= k < |ws| reads ws => StopOf(truck, ws[k])), truck.capacity, start, sqrt)
  }

  /** The sum of the fill levels of `bins`. */
  ghost function TotalLevel(bins: seq<WasteBin>): real
    reads bins
    decreases |bins|
  {
    if bins == [] then 0.0 else TotalLevel(bins[..|bins| - 1]) + bins[|bins| - 1].currentLevel
  }

  lemma {:induction false} LoadIsTotalLevel(truck: Truck, ws: seq<WasteBin>, start: Option<Point>, sqrt: real -> real, p: seq<nat>)
    requires InRange(p, |ws|)
    ensures Load(ProblemOf(truck, ws, start, sqrt), p) == TotalLevel(Select(ws, p))
    decreases |p|
  {
    if p != [] {
      var f := p[..|p| - 1];
      LoadIsTotalLevel(truck, ws, start, sqrt, f);
      assert Select(ws, p)[..|p| - 1] == Select(ws, f);
    }
  }

  lemma LocationsOfSelect(truck: Truck, ws: seq<WasteBin>, start: Option<Point>, sqrt: real -> real, p: seq<nat>)
    requires InRange(p, |ws|)
    ensures Locs(ProblemOf(truck, ws, start, sqrt), p) == Locations(Select(ws, p))
  {
  }

  /** What `optimize_route_backtracking` returns: `None` stands for an infinite distance. */
  ghost function PlannedRoute(truck: Truck, bins: seq<WasteBin>, start: Option<Point>, sqrt: real -> real): (seq<WasteBin>, Option<real>)
    reads bins
  {
    if bins == [] then ([], Some(0.0))
    else
      var ws := WorkingSet(truck, bins);
      var pb := ProblemOf(truck, ws, start, sqrt);
      var r := Search(pb);
      assert r.Some? ==> ValidPath(pb, r.value.path);
      match r
      case None => ([], None)
      case Some(f) => (Select(ws, f.path), Some(f.dist))
  }

  /** The distance from the start point to the first bin of a route, if both exist. */
  function StartLeg(start: Option<Point>, route: seq<WasteBin>, sqrt: real -> real): real
  {
    if route == [] || start.None? then 0.0 else Distance(start.value, route[0].location, sqrt)
  }

  /** The bins along a recordable ordering of the working set. */
  lemma {:induction false} CandidateRoute(truck: Truck, ws: seq<WasteBin>, start: Option<Point>, sqrt: real -> real, q: seq<nat>)
    requires Candidate(ProblemOf(truck, ws, start, sqrt), q)
    ensures InRange(q, |ws|)
    ensures var route := Select(ws, q);
      && multiset(route) <= multiset(ws)
      && (forall k :: 0 <= k < |route| ==> truck.Accepts(route[k].binType))
      && (route != [] ==> TotalLevel(route) <= truck.capacity)
      && ((forall k :: 0 <= k < |ws| ==> ws[k] in route) || TotalLevel(route) >= truck.capacity * 0.9)
  {
    var pb := ProblemOf(truck, ws, start, sqrt);
    CandidateFeasible(pb, q);
    SelectDistinct(ws, q);
    LoadIsTotalLevel(truck, ws, start, sqrt, q);
    if forall i :: 0 <= i < |ws| ==> i in q {
      SelectCovers(ws, q);
    }
  }

  lemma PlannedRouteFound(truck: Truck, bins: seq<WasteBin>, start: Option<Point>, sqrt: real -> real)
    requires bins != [] && PlannedRoute(truck, bins, start, sqrt).1.Some?
    ensures var pb := ProblemOf(truck, WorkingSet(truck, bins), start, sqrt);
      && Search(pb).Some?
      && Candidate(pb, Search(pb).value.path)
      && Search(pb).value.dist == PathDist(pb, Search(pb).value.path)
      && PlannedRoute(truck, bins, start, sqrt) ==
           (Select(WorkingSet(truck, bins), Search(pb).value.path), Some(Search(pb).value.dist))
  {
    SearchFindsCandidate(ProblemOf(truck, WorkingSet(truck, bins), start, sqrt));
  }

  /**
   * A planned route takes each working-set bin at most once, only bins the truck's type rule
   * accepts, fits the truck, and is complete: it takes every working-set bin or fills the truck
   * to 90 % or more.
   */
  lemma PlannedRouteFeasible(truck: Truck, bins: seq<WasteBin>, start: Option<Point>, sqrt: real -> real)
    requires bins != []
    requires PlannedRoute(truck, bins, start, sqrt).1.Some?
    ensures var route := PlannedRoute(truck, bins, start, sqrt).0;
      var ws := WorkingSet(truck, bins);
      && multiset(route) <= multiset(ws)
      && (forall k :: 0 <= k < |route| ==> truck.Accepts(route[k].binType))
      && (route != [] ==> TotalLevel(route) <= truck.capacity)
      && ((forall k :: 0 <= k < |ws| ==> ws[k] in route) || TotalLevel(route) >= truck.capacity * 0.9)
  {
    PlannedRouteFound(truck, bins, start, sqrt);
    var ws := WorkingSet(truck, bins);
    CandidateRoute(truck, ws, start, sqrt, Search(ProblemOf(truck, ws, start, sqrt)).value.path);
  }

  lemma RouteDistance(truck: Truck, ws: seq<WasteBin>, start: Option<Point>, sqrt: real -> real, q: seq<nat>)
    requires InRange(q, |ws|)
    ensures PathDist(ProblemOf(truck, ws, start, sqrt), q) ==
      StartLeg(start, Select(ws, q), sqrt) + PathLength(Locations(Select(ws, q)), sqrt)
  {
    var pb := ProblemOf(truck, ws, start, sqrt);
    PathDistSplit(pb, q);
    LocationsOfSelect(truck, ws, start, sqrt, q);
    assert FirstLeg(pb, q) == StartLeg(start, Select(ws, q), sqrt);
  }

  /** The planned distance is the start leg plus the distances between consecutive bins. */
  lemma PlannedRouteDistance(truck: Truck, bins: seq<WasteBin>, start: Option<Point>, sqrt: real -> real)
    requires bins != []
    requires PlannedRoute(truck, bins, start, sqrt).1.Some?
    ensures var (route, distance) := PlannedRoute(truck, bins, start, sqrt);
      distance.value == StartLeg(start, route, sqrt) + PathLength(Locations(route), sqrt)
  {
    PlannedRouteFound(truck, bins, start, sqrt);
    var ws := WorkingSet(truck, bins);
    RouteDistance(truck, ws, start, sqrt, Search(ProblemOf(truck, ws, start, sqrt)).value.path);
  }

  /**
   * No complete feasible ordering of the working set is shorter than the planned route, and the
   * planner reports an infinite distance only when no such ordering exists.
   */
  lemma PlannedRouteOptimal(truck: Truck, bins: seq<WasteBin>, start: Option<Point>, sqrt: real -> real)
    requires bins != []
    ensures var pb := ProblemOf(truck, WorkingSet(truck, bins), start, sqrt);
      var distance := PlannedRoute(truck, bins, start, sqrt).1;
      && (distance.None? <==> forall q :: !Candidate(pb, q))
      && (forall q :: Candidate(pb, q) ==> distance.Some? && distance.value <= PathDist(pb, q))
  {
    var pb := ProblemOf(truck, WorkingSet(truck, bins), start, sqrt);
    SearchFindsCandidate(pb);
    forall q | Candidate(pb, q) ensures Search(pb).Some? && Search(pb).value.dist <= PathDist(pb, q) {
      SearchIsOptimal(pb, q);
    }
  }

  /** Only the planner's successful outcome carries a non-empty route, and it has a distance. */
  lemma PlannedRouteNonEmpty(truck: Truck, bins: seq<WasteBin>, start: Option<Point>, sqrt: real -> real)
    requires PlannedRoute(truck, bins, start, sqrt).0 != []
    ensures bins != [] && PlannedRoute(truck, bins, start, sqrt).1.Some?
  {
  }

  /** `route` and `load` are the bins and the load along the search path `path`. */
  ghost predicate OnRoute(pb: Problem, bins: seq<WasteBin>, path: seq<nat>, route: seq<WasteBin>, load: real)
  {
    && |pb.stops| == |bins|
    && ValidPath(pb, path)
    && route == Select(bins, path)
    && load == Load(pb, path)
  }

  /** `bestRoute` and `bestDistance` are the route and distance of the recorded search path. */
  ghost predicate BestRecorded(pb: Problem, bins: seq<WasteBin>, best: Option<Found>, bestRoute: seq<WasteBin>, bestDistance: Option<real>)
  {
    && |pb.stops| == |bins|
    && Kept(pb, best)
    && (best.None? ==> bestRoute == [] && bestDistance.None?)
    && (best.Some? ==> bestRoute == Select(bins, best.value.path) && bestDistance == Some(best.value.dist))
  }

  lemma OnRoutePush(pb: Problem, bins: seq<WasteBin>, path: seq<nat>, route: seq<WasteBin>, load: real, i: nat)
    requires OnRoute(pb, bins, path, route, load) && i < |bins| && i !in path
    ensures OnRoute(pb, bins, path + [i], route + [bins[i]], load + pb.stops[i].level)
  {
    PathStep(pb, path, i);
    SelectAppend(bins, path, [i]);
  }

  lemma OnRoutePop(pb: Problem, bins: seq<WasteBin>, path: seq<nat>, route: seq<WasteBin>, load: real)
    requires OnRoute(pb, bins, path, route, load) && path != []
    ensures |route| == |path| && path[|path| - 1] !in path[..|path| - 1]
    ensures OnRoute(pb, bins, path[..|path| - 1], route[..|route| - 1], load - pb.stops[path[|path| - 1]].level)
  {
    var p, i := path[..|path| - 1], path[|path| - 1];
    assert path == p + [i];
    PathStep(pb, p, i);
    SelectAppend(bins, p, [i]);
  }

  /**
   * The state of one `optimize_route_backtracking` call that `backtrack` shares. The ghost
   * fields `path` and `best` are the current route and the recorded route as positions in the
   * working set.
   */
  class Backtracker {
    const truck: Truck
    const priorityBins: seq<WasteBin>
    const start: Option<Point>
    const sqrt: real -> real
    const visited: array<bool>
    var currentRoute: seq<WasteBin>
    var currentLoad: real
    var bestRoute: seq<WasteBin>
    /** `None` stands for `float('inf')`. */
    var bestDistance: Option<real>
    /** The search problem as the working set stood when the search began. */
    ghost const pb: Problem
    ghost var path: seq<nat>
    ghost var best: Option<Found>

    ghost predicate Valid()
      reads this, visited, priorityBins
    {
      && pb == ProblemOf(truck, priorityBins, start, sqrt)
      && visited.Length == |priorityBins|
      && OnRoute(pb, priorityBins, path, currentRoute, currentLoad)
      && (forall k :: 0 <= k < visited.Length ==> (visited[k] <==> k in path))
      && BestRecorded(pb, priorityBins, best, bestRoute, bestDistance)
    }

    constructor (truck: Truck, priorityBins: seq<WasteBin>, start: Option<Point>, sqrt: real -> real)
      ensures this.truck == truck && this.priorityBins == priorityBins
      ensures this.start == start && this.sqrt == sqrt
      ensures Valid() && fresh(visited)
      ensures path == [] && best == None
    {
      this.truck := truck;
      this.priorityBins := priorityBins;
      this.start := start;
      this.sqrt := sqrt;
      pb := ProblemOf(truck, priorityBins, start, sqrt);
      visited := new bool[|priorityBins|](_ => false);
      currentRoute := [];
      currentLoad := 0.0;
      bestRoute := [];
      bestDistance := None;
      path := [];
      best := None;
    }

    /** Takes working-set bin `i` onto the current route. */
    method Push(i: nat)
      requires Valid() && i < |priorityBins| && i !in path
      modifies this`currentRoute, this`currentLoad, this`path, visited
      ensures Valid() && path == old(path) + [i]
      ensures currentRoute == old(currentRoute) + [priorityBins[i]]
      ensures currentLoad == old(currentLoad) + priorityBins[i].currentLevel
    {
      OnRoutePush(pb, priorityBins, path, currentRoute, currentLoad, i);
      visited[i] := true;
      currentRoute := currentRoute + [priorityBins[i]];
      currentLoad := currentLoad + priorityBins[i].currentLevel;
      path := path + [i];
    }

    /** Takes working-set bin `i`, the last one, off the current route. */
    method Pop(i: nat)
      requires Valid() && path != [] && path[|path| - 1] == i
      modifies this`currentRoute, this`currentLoad, this`path, visited
      ensures Valid() && path == old(path)[..|old(path)| - 1]
      ensures currentRoute == old(currentRoute)[..|old(currentRoute)| - 1]
      ensures currentLoad == old(currentLoad) - priorityBins[i].currentLevel
    {
      OnRoutePop(pb, priorityBins, path, currentRoute, currentLoad);
      visited[i] := false;
      currentRoute := currentRoute[..|currentRoute| - 1];
      currentLoad := currentLoad - priorityBins[i].currentLevel;
      path := path[..|path| - 1];
    }

    /** The complete-route case of `backtrack`: keep the current route if it is strictly shorter. */
    method RecordIfShorter(currentDistance: real)
      requires Valid() && currentDistance == PathDist(pb, path)
      modifies this`bestRoute, this`bestDistance, this`best
      ensures Valid() && best == Record(old(best), path, currentDistance)
    {
      if bestDistance.None? || currentDistance < bestDistance.value {
        bestDistance := Some(currentDistance);
        bestRoute := currentRoute;
        best := Some(Found(path, currentDistance));
      }
    }

    /**
     * `backtrack(position, current_distance)`: explores every completion of the current route
     * and leaves the current route, load and visited flags as it found them.
     */
    method Backtrack(position: Option<Point>, currentDistance: real)
      requires Valid()
      requires position == if path == [] then start else Some(priorityBins[path[|path| - 1]].location)
      requires currentDistance == PathDist(pb, path)
      modifies this, visited
      ensures Valid()
      ensures path == old(path) && currentRoute == old(currentRoute) && currentLoad == old(currentLoad)
      ensures best == Visit(pb, path, old(best))
      decreases Unvisited(|priorityBins|, path), 1
    {
      var full := (forall k | 0 <= k < visited.Length :: visited[k]) || currentLoad >= truck.capacity * 0.9;
      assert full == Complete(pb, path);
      if full {
        RecordIfShorter(currentDistance);
        return;
      }
      assert Visit(pb, path, best) == Children(pb, path, 0, best);
      var i := 0;
      while i < |priorityBins|
        invariant 0 <= i <= |priorityBins|
        invariant Valid()
        invariant path == old(path) && currentRoute == old(currentRoute) && currentLoad == old(currentLoad)
        invariant Children(pb, path, i, best) == Visit(pb, path, old(best))
      {
        Descend(i, position, currentDistance);
        i := i + 1;
      }
    }

    /**
     * One iteration of the loop in `backtrack`: a bin that is unvisited, fits the remaining
     * capacity and has a type the truck accepts is taken, searched on from and taken off again.
     */
    method Descend(i: nat, position: Option<Point>, currentDistance: real)
      requires Valid() && i < |priorityBins|
      requires position == if path == [] then start else Some(priorityBins[path[|path| - 1]].location)
      requires currentDistance == PathDist(pb, path)
      modifies this, visited
      ensures Valid()
      ensures path == old(path) && currentRoute == old(currentRoute) && currentLoad == old(currentLoad)
      ensures best == if Admissible(pb, path, i) then Visit(pb, path + [i], old(best)) else old(best)
      decreases Unvisited(|priorityBins|, path), 0
    {
      var b := priorityBins[i];
      if visited[i] || currentLoad + b.currentLevel > truck.capacity || !truck.Accepts(b.binType) {
        assert !Admissible(pb, path, i);
        return;
      }
      assert Admissible(pb, path, i);
      var distToBin := 0.0;
      if position.Some? {
        if currentRoute != [] {
          distToBin := Distance(currentRoute[|currentRoute| - 1].location, b.location, sqrt);
        } else {
          distToBin := Distance(position.value, b.location, sqrt);
        }
      }
      PathStep(pb, path, i);
      assert distToBin == Leg(pb, path, i);
      UnvisitedShrinks(|priorityBins|, path, i);
      Push(i);
      Backtrack(Some(b.location), currentDistance + distToBin);
      Pop(i);
    }
  }

  /**
   * `optimize_route_backtracking(truck, waste_bins, start_point)`: an empty bin list gives an
   * empty route of distance 0; otherwise the route the search records over the working set,
   * or an empty route with an infinite distance when it records none.
   */
  method OptimizeRouteBacktracking(truck: Truck, wasteBins: seq<WasteBin>, startPoint: Option<Point>, sqrt: real -> real)
    returns (route: seq<WasteBin>, distance: Option<real>)
    ensures (route, distance) == PlannedRoute(truck, wasteBins, startPoint, sqrt)
  {
    if wasteBins == [] {
      return [], Some(0.0);
    }
    var priorityBins := WorkingSet(truck, wasteBins);
    var bt := new Backtracker(truck, priorityBins, startPoint, sqrt);
    bt.Backtrack(startPoint, 0.0);
    route, distance := bt.bestRoute, bt.bestDistance;
  }

  // ---------------------------------------------------------------------------------------
  // Assigning trucks to districts

  const Recyclable: string := "Recyclable"
  const NonRecyclable: string := "Non Recyclable"

  /** The fill level of the bins needing emptying: the order in which districts are served. */
  function UrgentVolume(bins: seq<WasteBin>): real
    reads bins
    decreases |bins|
  {
    if bins == [] then 0.0
    else
      var b := bins[|bins| - 1];
      UrgentVolume(bins[..|bins| - 1]) + if b.emptyingNeeded then b.currentLevel else 0.0
  }

  /** The fill level of the bins of type `binType` needing emptying. */
  function TypeVolume(bins: seq<WasteBin>, binType: string): real
    reads bins
    decreases |bins|
  {
    if bins == [] then 0.0
    else
      var b := bins[|bins| - 1];
      TypeVolume(bins[..|bins| - 1], binType) + if b.binType == binType && b.emptyingNeeded then b.currentLevel else 0.0
  }

  datatype WasteStats = WasteStats(recyclable: real, nonRecyclable: real, mixed: real, total: real)

  function StatsOf(bins: seq<WasteBin>): WasteStats
    reads bins
  {
    var recyclable := TypeVolume(bins, Recyclable);
    var nonRecyclable := TypeVolume(bins, NonRecyclable);
    var mixed := TypeVolume(bins, MixedType);
    WasteStats(recyclable, nonRecyclable, mixed, recyclable + nonRecyclable + mixed)
  }

  /** When every bin needing emptying has one of the three types, the statistics total is the urgent volume. */
  lemma {:induction false} StatsTotalIsUrgentVolume(bins: seq<WasteBin>)
    requires forall k :: 0 <= k < |bins| && bins[k].emptyingNeeded ==>
      bins[k].binType in {Recyclable, NonRecyclable, MixedType}
    ensures StatsOf(bins).total == UrgentVolume(bins)
    decreases |bins|
  {
    if bins != [] {
      StatsTotalIsUrgentVolume(bins[..|bins| - 1]);
    }
  }

  /** The type a specialised truck is looked for: one of the two types with strictly the largest volume. */
  function DominantType(st: WasteStats): (t: Option<string>)
    ensures t == Some(Recyclable) <==> st.recyclable > st.nonRecyclable && st.recyclable > st.mixed
    ensures t == Some(NonRecyclable) <==> st.nonRecyclable > st.recyclable && st.nonRecyclable > st.mixed
    ensures t.Some? ==> t == Some(Recyclable) || t == Some(NonRecyclable)
  {
    if st.recyclable > st.nonRecyclable && st.recyclable > st.mixed then Some(Recyclable)
    else if st.nonRecyclable > st.recyclable && st.nonRecyclable > st.mixed then Some(NonRecyclable)
    else None
  }

  /** Every bin of every district in `districts`. */
  ghost function BinsOf(districts: seq<District>): set<WasteBin>
    reads districts
  {
    set d, b | d in districts && b in d.wasteBins :: b
  }

  lemma BinsOfDistrict(districts: seq<District>, k: nat)
    requires k < |districts|
    ensures forall b :: b in districts[k].wasteBins ==> b in BinsOf(districts)
  {
    var d := districts[k];
    forall b | b in d.wasteBins ensures b in BinsOf(districts) {
      assert d in districts && b in d.wasteBins;
    }
  }

  lemma BinsOfSub(a: seq<District>, b: seq<District>)
    requires forall d :: d in a ==> d in b
    ensures BinsOf(a) <= BinsOf(b)
  {
  }

  function Volumes(districts: seq<District>): (vs: seq<real>)
    reads districts, BinsOf(districts)
    ensures |vs| == |districts|
  {
    seq(|districts|, k requires 0 <= k < |districts| reads districts, BinsOf(districts) =>
      BinsOfDistrict(districts, k);
      assert forall b :: b in districts[k].wasteBins ==> b in BinsOf(districts);
      UrgentVolume(districts[k].wasteBins))
  }

  /** A stable sort of the districts by urgent volume, largest first. */
  function DistrictsByVolume(districts: seq<District>): (r: seq<District>)
    reads districts, BinsOf(districts)
    ensures multiset(r) == multiset(districts)
  {
    OrderPermutes(districts, Volumes(districts));
    Select(districts, Order(Volumes(districts)))
  }

  /**
   * Sorting puts the district with more urgent volume first; `r[a]` is the input district at
   * position `p[a]`, and districts with the same volume keep their input order.
   */
  lemma DistrictsByVolumeSorted(districts: seq<District>)
    ensures var r, p := DistrictsByVolume(districts), Order(Volumes(districts));
      && (forall a, b :: 0 <= a < b < |r| ==> UrgentVolume(r[a].wasteBins) >= UrgentVolume(r[b].wasteBins))
      && (forall a :: 0 <= a < |r| ==> r[a] == districts[p[a]])
      && (forall a, b :: 0 <= a < b < |r| && UrgentVolume(r[a].wasteBins) == UrgentVolume(r[b].wasteBins) ==> p[a] < p[b])
  {
    OrderSpec(Volumes(districts));
  }

  function Capacities(trucks: seq<Truck>): (cs: seq<real>)
    ensures |cs| == |trucks|
  {
    seq(|trucks|, k requires 0 <= k < |trucks| => trucks[k].capacity)
  }

  /**
   * A stable sort of the trucks by capacity, largest first: `r[a]` is the input truck at
   * position `Order(..)[a]`, and trucks of equal capacity keep their input order.
   */
  function TrucksByCapacity(trucks: seq<Truck>): (r: seq<Truck>)
    ensures multiset(r) == multiset(trucks) && |r| == |trucks|
    ensures forall a, b :: 0 <= a < b < |r| ==> r[a].capacity >= r[b].capacity
    ensures var p := Order(Capacities(trucks));
      && (forall a :: 0 <= a < |r| ==> r[a] == trucks[p[a]])
      && (forall a, b :: 0 <= a < b < |r| && r[a].capacity == r[b].capacity ==> p[a] < p[b])
  {
    OrderPermutes(trucks, Capacities(trucks));
    OrderSpec(Capacities(trucks));
    Select(trucks, Order(Capacities(trucks)))
  }

  /** No later district in `districts` has the id of `districts[k]`. */
  ghost predicate LastWithId(districts: seq<District>, k: nat, n: nat)
    requires k < n <= |districts|
  {
    forall j :: k < j < n ==> districts[j].districtId != districts[k].districtId
  }

  /** The statistics per district id, a later district with the same id overwriting an earlier one. */
  ghost function StatsMap(districts: seq<District>): map<int, WasteStats>
    reads districts, BinsOf(districts)
    decreases |districts|
  {
    if districts == [] then map[]
    else
      var n := |districts| - 1;
      assert forall d :: d in districts[..n] ==> d in districts;
      BinsOfSub(districts[..n], districts);
      BinsOfDistrict(districts, n);
      StatsMap(districts[..n])[districts[n].districtId := StatsOf(districts[n].wasteBins)]
  }

  /** There are statistics for exactly the ids of the districts. */
  lemma {:induction false} StatsMapKeys(districts: seq<District>)
    ensures forall id :: id in StatsMap(districts) <==> exists k :: 0 <= k < |districts| && districts[k].districtId == id
    decreases |districts|
  {
    if districts != [] {
      var n := |districts| - 1;
      StatsMapKeys(districts[..n]);
      forall id ensures id in StatsMap(districts) <==> exists k :: 0 <= k < |districts| && districts[k].districtId == id {
        if id in StatsMap(districts[..n]) {
          var k :| 0 <= k < n && districts[..n][k].districtId == id;
          assert districts[k].districtId == id;
        }
        if exists k :: 0 <= k < |districts| && districts[k].districtId == id {
          var k :| 0 <= k < |districts| && districts[k].districtId == id;
          if k < n {
            assert districts[..n][k].districtId == id;
          }
        }
      }
    }
  }

  /** A district that no later district shares its id with has its own statistics. */
  lemma {:induction false} StatsMapLast(districts: seq<District>)
    ensures forall k :: 0 <= k < |districts| && LastWithId(districts, k, |districts|) ==>
      districts[k].districtId in StatsMap(districts) &&
      StatsMap(districts)[districts[k].districtId] == StatsOf(districts[k].wasteBins)
    decreases |districts|
  {
    if districts != [] {
      var n := |districts| - 1;
      var front := districts[..n];
      StatsMapLast(front);
      var last := districts[n];
      assert StatsMap(districts) == StatsMap(front)[last.districtId := StatsOf(last.wasteBins)];
      forall k | 0 <= k < |districts| && LastWithId(districts, k, |districts|)
        ensures districts[k].districtId in StatsMap(districts) &&
          StatsMap(districts)[districts[k].districtId] == StatsOf(districts[k].wasteBins)
      {
        if k < n {
          assert front[k] == districts[k] && districts[k].districtId != last.districtId;
          assert LastWithId(front, k, n);
        }
      }
    }
  }

  /** The statistics per district id; a later district with the same id overwrites an earlier one. */
  method DistrictStats(districts: seq<District>) returns (stats: map<int, WasteStats>)
    ensures stats == StatsMap(districts)
    ensures forall id :: id in stats <==> exists k :: 0 <= k < |districts| && districts[k].districtId == id
    ensures forall k :: 0 <= k < |districts| && LastWithId(districts, k, |districts|) ==>
      stats[districts[k].districtId] == StatsOf(districts[k].wasteBins)
  {
    stats := map[];
    var i := 0;
    while i < |districts|
      invariant 0 <= i <= |districts|
      invariant stats == StatsMap(districts[..i])
    {
      var district := districts[i];
      assert districts[..i + 1][..i] == districts[..i];
      stats := stats[district.districtId := StatsOf(district.wasteBins)];
      i := i + 1;
    }
    assert districts[..i] == districts;
    StatsMapKeys(districts);
    StatsMapLast(districts);
  }

  datatype Assignment = Assignment(truck: Truck, route: seq<WasteBin>, distance: Option<real>)

  /** `a` carries the planner's non-empty route for a district whose bins are `bins`. */
  ghost predicate Serves(a: Assignment, bins: seq<WasteBin>, sqrt: real -> real)
    reads bins
  {
    a.route != [] && (a.route, a.distance) == PlannedRoute(a.truck, bins, Origin, sqrt)
  }

  /** The planner finds no non-empty route for `t` through `bins`. */
  ghost predicate NoRoute(t: Truck, bins: seq<WasteBin>, sqrt: real -> real)
    reads bins
  {
    PlannedRoute(t, bins, Origin, sqrt).0 == []
  }

  /** No truck among the first `i` of `available` specialised in `binType` has a route through `bins`. */
  ghost predicate NoneBefore(available: seq<Truck>, binType: string, bins: seq<WasteBin>, sqrt: real -> real, i: nat)
    requires i <= |available|
    reads bins
  {
    forall j :: 0 <= j < i && available[j].binTypeSpecialty == Some(binType) ==> NoRoute(available[j], bins, sqrt)
  }

  lemma NoneBeforeStep(available: seq<Truck>, binType: string, bins: seq<WasteBin>, sqrt: real -> real, i: nat)
    requires i < |available| && NoneBefore(available, binType, bins, sqrt, i)
    requires available[i].binTypeSpecialty == Some(binType) ==> NoRoute(available[i], bins, sqrt)
    ensures NoneBefore(available, binType, bins, sqrt, i + 1)
  {
  }

  /**
   * The position of the first truck of `available`, from position `from` on, that is
   * specialised in `binType` and for which the planner finds a non-empty route through `bins`.
   */
  ghost function FirstRoutable(available: seq<Truck>, binType: string, bins: seq<WasteBin>, sqrt: real -> real, from: nat): (r: Option<nat>)
    requires from <= |available|
    reads bins
    ensures r.Some? ==> from <= r.value < |available| && available[r.value].binTypeSpecialty == Some(binType)
    decreases |available| - from
  {
    if from == |available| then None
    else if available[from].binTypeSpecialty == Some(binType) && !NoRoute(available[from], bins, sqrt) then Some(from)
    else FirstRoutable(available, binType, bins, sqrt, from + 1)
  }

  /**
   * `FirstRoutable` finds the first fitting truck: position `n` when no truck before it fits and
   * it does, nothing when no truck fits at all.
   */
  lemma {:induction false} FirstRoutableIsFirst(available: seq<Truck>, binType: string, bins: seq<WasteBin>, sqrt: real -> real, from: nat, n: nat)
    requires from <= n <= |available| && NoneBefore(available, binType, bins, sqrt, n)
    requires n < |available| ==> available[n].binTypeSpecialty == Some(binType) && !NoRoute(available[n], bins, sqrt)
    ensures FirstRoutable(available, binType, bins, sqrt, from) == if n < |available| then Some(n) else None
    decreases n - from
  {
    if from < n {
      FirstRoutableIsFirst(available, binType, bins, sqrt, from + 1, n);
    }
  }

  /**
   * The inner loop of the first pass: the first truck of `available` specialised in `binType`
   * for which the planner finds a non-empty route through `bins`.
   */
  method FindSpecialisedTruck(available: seq<Truck>, binType: string, bins: seq<WasteBin>, sqrt: real -> real)
    returns (found: Option<nat>, route: seq<WasteBin>, distance: Option<real>)
    ensures found.Some? ==> found.value < |available| && available[found.value].binTypeSpecialty == Some(binType)
    ensures found.Some? ==> route != [] && (route, distance) == PlannedRoute(available[found.value], bins, Origin, sqrt)
    ensures NoneBefore(available, binType, bins, sqrt, if found.Some? then found.value else |available|)
    ensures found == FirstRoutable(available, binType, bins, sqrt, 0)
  {
    found, route, distance := None, [], None;
    var i := 0;
    while i < |available|
      invariant 0 <= i <= |available|
      invariant NoneBefore(available, binType, bins, sqrt, i)
    {
      var truck := available[i];
      if truck.binTypeSpecialty == Some(binType) {
        var r, d := OptimizeRouteBacktracking(truck, bins, Origin, sqrt);
        if r != [] {
          FirstRoutableIsFirst(available, binType, bins, sqrt, 0, i);
          return Some(i), r, d;
        }
      }
      NoneBeforeStep(available, binType, bins, sqrt, i);
      i := i + 1;
    }
    FirstRoutableIsFirst(available, binType, bins, sqrt, 0, |available|);
  }

  /** `a` serves the district `order[j]`. */
  ghost predicate ServesDistrict(a: Assignment, order: seq<District>, j: nat, sqrt: real -> real)
    requires j < |order|
    reads order, BinsOf(order)
  {
    BinsOfDistrict(order, j);
    Serves(a, order[j].wasteBins, sqrt)
  }

  /** Every assignment serves a district with its id among the first `k` of `order`. */
  ghost predicate ServedAmong(assignments: map<int, Assignment>, order: seq<District>, k: nat, sqrt: real -> real)
    requires k <= |order|
    reads order, BinsOf(order)
  {
    forall id :: id in assignments ==>
      exists j :: 0 <= j < k && order[j].districtId == id && ServesDistrict(assignments[id], order, j, sqrt)
  }

  lemma ServedAmongStep(assignments: map<int, Assignment>, order: seq<District>, k: nat, sqrt: real -> real)
    requires k < |order| && ServedAmong(assignments, order, k, sqrt)
    ensures ServedAmong(assignments, order, k + 1, sqrt)
  {
  }

  lemma ServedAmongAdd(assignments: map<int, Assignment>, order: seq<District>, k: nat, a: Assignment, sqrt: real -> real)
    requires k < |order| && ServedAmong(assignments, order, k, sqrt) && ServesDistrict(a, order, k, sqrt)
    ensures ServedAmong(assignments[order[k].districtId := a], order, k + 1, sqrt)
  {
  }

  /**
   * No district among the first `k` of `order` left without an assignment has a dominant type
   * for which a truck of `available` specialised in it finds a route.
   */
  ghost predicate Exhausted(order: seq<District>, stats: map<int, WasteStats>, assignments: map<int, Assignment>,
                            available: seq<Truck>, k: nat, sqrt: real -> real)
    requires k <= |order| && forall j :: 0 <= j < |order| ==> order[j].districtId in stats
    reads order, BinsOf(order)
  {
    forall j, t ::
      (0 <= j < k && order[j].districtId !in assignments && t in available &&
       DominantType(stats[order[j].districtId]).Some? && t.binTypeSpecialty == DominantType(stats[order[j].districtId])) ==>
      (BinsOfDistrict(order, j);
       NoRoute(t, order[j].wasteBins, sqrt))
  }

  /** A district that is already assigned or has no dominant type adds no obligation. */
  lemma ExhaustedSkip(order: seq<District>, stats: map<int, WasteStats>, assignments: map<int, Assignment>,
                      available: seq<Truck>, k: nat, sqrt: real -> real)
    requires k < |order| && forall j :: 0 <= j < |order| ==> order[j].districtId in stats
    requires Exhausted(order, stats, assignments, available, k, sqrt)
    requires order[k].districtId in assignments || DominantType(stats[order[k].districtId]).None?
    ensures Exhausted(order, stats, assignments, available, k + 1, sqrt)
  {
  }

  /** A district for which no available truck of its dominant type finds a route. */
  lemma ExhaustedNone(order: seq<District>, stats: map<int, WasteStats>, assignments: map<int, Assignment>,
                      available: seq<Truck>, k: nat, sqrt: real -> real)
    requires k < |order| && forall j :: 0 <= j < |order| ==> order[j].districtId in stats
    requires Exhausted(order, stats, assignments, available, k, sqrt)
    requires DominantType(stats[order[k].districtId]).Some?
    requires NoneBefore(available, DominantType(stats[order[k].districtId]).value, order[k].wasteBins, sqrt, |available|)
    ensures Exhausted(order, stats, assignments, available, k + 1, sqrt)
  {
    forall j, t | 0 <= j < k + 1 && order[j].districtId !in assignments && t in available &&
      DominantType(stats[order[j].districtId]).Some? && t.binTypeSpecialty == DominantType(stats[order[j].districtId])
      ensures NoRoute(t, order[j].wasteBins, sqrt)
    {
      if j == k {
        var i :| 0 <= i < |available| && available[i] == t;
      }
    }
  }

  /** Assigning `order[k]` and removing a truck from `available` keeps the obligations met. */
  lemma ExhaustedAssign(order: seq<District>, stats: map<int, WasteStats>, assignments: map<int, Assignment>,
                        available: seq<Truck>, k: nat, a: Assignment, rest: seq<Truck>, sqrt: real -> real)
    requires k < |order| && forall j :: 0 <= j < |order| ==> order[j].districtId in stats
    requires Exhausted(order, stats, assignments, available, k, sqrt)
    requires forall t :: t in rest ==> t in available
    ensures Exhausted(order, stats, assignments[order[k].districtId := a], rest, k + 1, sqrt)
  {
  }

  /**
   * The first pass's bookkeeping: every assignment is for a district with statistics and uses a
   * truck of `trucks` specialised in that district's dominant type, and each assignment took
   * one truck out of `available`.
   */
  ghost predicate SpecialisedBooks(stats: map<int, WasteStats>, trucks: seq<Truck>, assignments: map<int, Assignment>, available: seq<Truck>)
  {
    && (forall id :: id in assignments ==>
          id in stats && assignments[id].truck in trucks && DominantType(stats[id]) == assignments[id].truck.binTypeSpecialty)
    && multiset(available) <= multiset(trucks)
    && (forall t :: t in available ==> t in trucks)
    && |available| + |assignments| == |trucks|
  }

  /** With distinct trucks, the assigned trucks are distinct and none of them is still available. */
  ghost predicate Disjoint(trucks: seq<Truck>, assignments: map<int, Assignment>, available: seq<Truck>)
  {
    NoDuplicates(trucks) ==>
      && NoDuplicates(available)
      && (forall id :: id in assignments ==> assignments[id].truck !in available)
      && (forall id1, id2 :: id1 in assignments && id2 in assignments && id1 != id2 ==>
            assignments[id1].truck != assignments[id2].truck)
  }

  /** Assigning the available truck at position `i` to a district keeps the bookkeeping. */
  lemma BooksAssign(stats: map<int, WasteStats>, trucks: seq<Truck>, assignments: map<int, Assignment>,
                    available: seq<Truck>, i: nat, id: int, a: Assignment)
    requires SpecialisedBooks(stats, trucks, assignments, available) && Disjoint(trucks, assignments, available)
    requires i < |available| && a.truck == available[i] && id !in assignments
    requires id in stats && DominantType(stats[id]) == a.truck.binTypeSpecialty
    ensures SpecialisedBooks(stats, trucks, assignments[id := a], available[..i] + available[i + 1..])
    ensures Disjoint(trucks, assignments[id := a], available[..i] + available[i + 1..])
  {
    RemoveAt(available, i);
    assert a.truck in multiset(available);
  }

  /** The trucks the assignments use. */
  ghost function AssignedTrucks(assignments: map<int, Assignment>): set<Truck>
  {
    set id | id in assignments :: assignments[id].truck
  }

  /** Extending the assignments keeps every assigned truck assigned. */
  lemma AssignedTrucksGrow(before: map<int, Assignment>, after: map<int, Assignment>)
    requires Extends(before, after)
    ensures AssignedTrucks(before) <= AssignedTrucks(after)
  {
    forall t | t in AssignedTrucks(before) ensures t in AssignedTrucks(after) {
      var id :| id in before && before[id].truck == t;
      assert after[id].truck == t;
    }
  }

  lemma AssignedTruck(assignments: map<int, Assignment>, id: int, a: Assignment)
    ensures a.truck in AssignedTrucks(assignments[id := a])
  {
    assert assignments[id := a][id] == a;
  }

  /** Every assigned truck carries its assignment's route. */
  ghost predicate RoutesStored(assignments: map<int, Assignment>)
    reads AssignedTrucks(assignments)
  {
    forall id :: id in assignments ==> assignments[id].truck.route == assignments[id].route
  }

  /**
   * The state of the first pass after the first `k` districts of `order`: what each step
   * preserves.
   */
  ghost predicate FirstPass(order: seq<District>, stats: map<int, WasteStats>, trucks: seq<Truck>,
                            assignments: map<int, Assignment>, available: seq<Truck>, k: nat, sqrt: real -> real)
    reads order, BinsOf(order)
  {
    && k <= |order|
    && (forall j :: 0 <= j < |order| ==> order[j].districtId in stats)
    && ServedAmong(assignments, order, k, sqrt)
    && Exhausted(order, stats, assignments, available, k, sqrt)
    && SpecialisedBooks(stats, trucks, assignments, available)
    && Disjoint(trucks, assignments, available)
  }

  /** A district of the first pass that is skipped or finds no specialised truck. */
  lemma PassUnassigned(order: seq<District>, stats: map<int, WasteStats>, trucks: seq<Truck>, assignments: map<int, Assignment>,
                       available: seq<Truck>, k: nat, sqrt: real -> real)
    requires FirstPass(order, stats, trucks, assignments, available, k, sqrt) && k < |order|
    requires || order[k].districtId in assignments
             || DominantType(stats[order[k].districtId]).None?
             || NoneBefore(available, DominantType(stats[order[k].districtId]).value, order[k].wasteBins, sqrt, |available|)
    ensures FirstPass(order, stats, trucks, assignments, available, k + 1, sqrt)
  {
    ServedAmongStep(assignments, order, k, sqrt);
    if order[k].districtId in assignments || DominantType(stats[order[k].districtId]).None? {
      ExhaustedSkip(order, stats, assignments, available, k, sqrt);
    } else {
      ExhaustedNone(order, stats, assignments, available, k, sqrt);
    }
  }

  /** A district of the first pass that takes the available truck at position `i`. */
  lemma PassAssigned(order: seq<District>, stats: map<int, WasteStats>, trucks: seq<Truck>, assignments: map<int, Assignment>,
                     available: seq<Truck>, k: nat, i: nat, a: Assignment, sqrt: real -> real)
    requires FirstPass(order, stats, trucks, assignments, available, k, sqrt) && k < |order|
    requires i < |available| && a.truck == available[i] && order[k].districtId !in assignments
    requires DominantType(stats[order[k].districtId]) == a.truck.binTypeSpecialty && ServesDistrict(a, order, k, sqrt)
    ensures var assignments', available' := assignments[order[k].districtId := a], available[..i] + available[i + 1..];
      && FirstPass(order, stats, trucks, assignments', available', k + 1, sqrt)
      && a.truck in trucks
      && (forall t :: t in available' ==> t in available)
      && (NoDuplicates(trucks) ==> a.truck !in available' && forall id :: id in assignments ==> assignments[id].truck != a.truck)
  {
    var available' := available[..i] + available[i + 1..];
    BooksAssign(stats, trucks, assignments, available, i, order[k].districtId, a);
    ServedAmongAdd(assignments, order, k, a, sqrt);
    ExhaustedAssign(order, stats, assignments, available, k, a, available', sqrt);
    RemoveAt(available, i);
    assert a.truck in multiset(trucks);
  }

  /**
   * What the first pass does with district `d`: unless it is already assigned or has no
   * dominant type, the first available truck specialised in that type with a non-empty route
   * takes it with that route and leaves `available`.
   */
  ghost function SpecialisedStep(d: District, stats: map<int, WasteStats>, assignments: map<int, Assignment>,
                                 available: seq<Truck>, sqrt: real -> real): (map<int, Assignment>, seq<Truck>)
    requires d.districtId in stats
    reads d, d.wasteBins
  {
    var wanted := DominantType(stats[d.districtId]);
    if d.districtId in assignments || wanted.None? then (assignments, available)
    else match FirstRoutable(available, wanted.value, d.wasteBins, sqrt, 0)
      case None => (assignments, available)
      case Some(i) =>
        var (route, distance) := PlannedRoute(available[i], d.wasteBins, Origin, sqrt);
        (assignments[d.districtId := Assignment(available[i], route, distance)], available[..i] + available[i + 1..])
  }

  /** The step when the first fitting truck is at position `i` and plans `route` with `distance`. */
  lemma SpecialisedStepTakes(d: District, stats: map<int, WasteStats>, assignments: map<int, Assignment>,
                             available: seq<Truck>, sqrt: real -> real, wanted: string, i: nat, route: seq<WasteBin>, distance: Option<real>)
    requires d.districtId in stats && d.districtId !in assignments && DominantType(stats[d.districtId]) == Some(wanted)
    requires FirstRoutable(available, wanted, d.wasteBins, sqrt, 0) == Some(i)
    requires (route, distance) == PlannedRoute(available[i], d.wasteBins, Origin, sqrt)
    ensures SpecialisedStep(d, stats, assignments, available, sqrt) ==
      (assignments[d.districtId := Assignment(available[i], route, distance)], available[..i] + available[i + 1..])
  {
  }

  /** The first pass's assignments and remaining trucks after the first `k` districts of `order`. */
  ghost function FirstPassUpTo(order: seq<District>, stats: map<int, WasteStats>, trucks: seq<Truck>, k: nat,
                               sqrt: real -> real): (map<int, Assignment>, seq<Truck>)
    requires k <= |order| && forall j :: 0 <= j < |order| ==> order[j].districtId in stats
    reads order, BinsOf(order)
    decreases k
  {
    if k == 0 then (map[], trucks)
    else
      var (assignments, available) := FirstPassUpTo(order, stats, trucks, k - 1, sqrt);
      BinsOfDistrict(order, k - 1);
      SpecialisedStep(order[k - 1], stats, assignments, available, sqrt)
  }

  lemma FirstPassUpToStep(order: seq<District>, stats: map<int, WasteStats>, trucks: seq<Truck>, k: nat, sqrt: real -> real)
    requires k < |order| && forall j :: 0 <= j < |order| ==> order[j].districtId in stats
    ensures var (assignments, available) := FirstPassUpTo(order, stats, trucks, k, sqrt);
      FirstPassUpTo(order, stats, trucks, k + 1, sqrt) == SpecialisedStep(order[k], stats, assignments, available, sqrt)
  {
  }

  /** Trucks in order of non-increasing capacity, the order `TrucksByCapacity` produces. */
  ghost predicate ByCapacity(ts: seq<Truck>)
  {
    forall a, b :: 0 <= a < b < |ts| ==> ts[a].capacity >= ts[b].capacity
  }

  /** Taking the truck at position `i` out of `available` keeps the others, in their order. */
  lemma TakeOutKeepsOrder(available: seq<Truck>, i: nat)
    requires i < |available|
    ensures multiset(available[..i] + available[i + 1..]) <= multiset(available)
    ensures ByCapacity(available) ==> ByCapacity(available[..i] + available[i + 1..])
  {
    var r := available[..i] + available[i + 1..];
    RemoveAt(available, i);
    if ByCapacity(available) {
      forall a, b | 0 <= a < b < |r| ensures r[a].capacity >= r[b].capacity {
        var a' := if a < i then a else a + 1;
        var b' := if b < i then b else b + 1;
        assert r[a] == available[a'] && r[b] == available[b'];
      }
    }
  }

  /** One step of the first pass takes at most one truck out, for the district it assigns. */
  lemma SpecialisedStepTakesOut(d: District, stats: map<int, WasteStats>, assignments: map<int, Assignment>,
                                available: seq<Truck>, sqrt: real -> real)
    requires d.districtId in stats
    ensures var (assignments', rest) := SpecialisedStep(d, stats, assignments, available, sqrt);
      && multiset(rest) <= multiset(available)
      && (ByCapacity(available) ==> ByCapacity(rest))
      && |assignments'| + |rest| == |assignments| + |available|
      && forall id :: id in assignments' ==>
           (id in assignments && assignments'[id] == assignments[id]) ||
           (id == d.districtId && assignments'[id].truck in available &&
            assignments'[id].truck.binTypeSpecialty == DominantType(stats[id]))
  {
    var wanted := DominantType(stats[d.districtId]);
    if d.districtId !in assignments && wanted.Some? {
      var found := FirstRoutable(available, wanted.value, d.wasteBins, sqrt, 0);
      if found.Some? {
        var i := found.value;
        var (route, distance) := PlannedRoute(available[i], d.wasteBins, Origin, sqrt);
        SpecialisedStepTakes(d, stats, assignments, available, sqrt, wanted.value, i, route, distance);
        var assignments' := assignments[d.districtId := Assignment(available[i], route, distance)];
        var rest := available[..i] + available[i + 1..];
        TakeOutKeepsOrder(available, i);
        assert |rest| == |available| - 1 && |assignments'| == |assignments| + 1;
        assert available[i] in available && available[i].binTypeSpecialty == wanted;
      }
    }
  }


  /**
   * What the first pass keeps true of its state: the trucks left are among `trucks` and stay in
   * capacity order when `trucks` is; each truck taken serves one district, with the district's
   * dominant type as its specialty.
   */
  ghost predicate TakenOut(stats: map<int, WasteStats>, trucks: seq<Truck>, assignments: map<int, Assignment>, rest: seq<Truck>)
  {
    && multiset(rest) <= multiset(trucks)
    && (ByCapacity(trucks) ==> ByCapacity(rest))
    && |assignments| + |rest| == |trucks|
    && forall id :: id in assignments ==>
         id in stats && assignments[id].truck in trucks && assignments[id].truck.binTypeSpecialty == DominantType(stats[id])
  }

  /** A step that takes at most one truck out, for a district of `stats`, keeps `TakenOut`. */
  lemma TakenOutKept(stats: map<int, WasteStats>, trucks: seq<Truck>, assignments: map<int, Assignment>, rest: seq<Truck>,
                     assignments': map<int, Assignment>, rest': seq<Truck>, districtId: int)
    requires TakenOut(stats, trucks, assignments, rest) && districtId in stats
    requires multiset(rest') <= multiset(rest) && (ByCapacity(rest) ==> ByCapacity(rest'))
    requires |assignments'| + |rest'| == |assignments| + |rest|
    requires forall id :: id in assignments' ==>
      (id in assignments && assignments'[id] == assignments[id]) ||
      (id == districtId && assignments'[id].truck in rest &&
       assignments'[id].truck.binTypeSpecialty == DominantType(stats[id]))
    ensures TakenOut(stats, trucks, assignments', rest')
  {
    forall id | id in assignments' ensures assignments'[id].truck in trucks {
      var t := assignments'[id].truck;
      if t in rest {
        assert t in multiset(rest);
      }
    }
  }

  /** The `k`-th district of the first pass keeps `TakenOut`. */
  lemma FirstPassTakesOutStep(order: seq<District>, stats: map<int, WasteStats>, trucks: seq<Truck>, k: nat, sqrt: real -> real)
    requires 0 < k <= |order| && forall j :: 0 <= j < |order| ==> order[j].districtId in stats
    requires var p := FirstPassUpTo(order, stats, trucks, k - 1, sqrt); TakenOut(stats, trucks, p.0, p.1)
    ensures var q := FirstPassUpTo(order, stats, trucks, k, sqrt); TakenOut(stats, trucks, q.0, q.1)
  {
    FirstPassUpToStep(order, stats, trucks, k - 1, sqrt);
    var p := FirstPassUpTo(order, stats, trucks, k - 1, sqrt);
    var q := FirstPassUpTo(order, stats, trucks, k, sqrt);
    SpecialisedStepTakesOut(order[k - 1], stats, p.0, p.1, sqrt);
    TakenOutKept(stats, trucks, p.0, p.1, q.0, q.1, order[k - 1].districtId);
  }

  /** The first pass only ever takes trucks out: `TakenOut` holds after every district. */
  lemma FirstPassTakesOut(order: seq<District>, stats: map<int, WasteStats>, trucks: seq<Truck>, k: nat, sqrt: real -> real)
    requires k <= |order| && forall j :: 0 <= j < |order| ==> order[j].districtId in stats
    ensures var r := FirstPassUpTo(order, stats, trucks, k, sqrt); TakenOut(stats, trucks, r.0, r.1)
  {
    var n := 0;
    while n < k
      invariant n <= k
      invariant var r := FirstPassUpTo(order, stats, trucks, n, sqrt); TakenOut(stats, trucks, r.0, r.1)
    {
      n := n + 1;
      FirstPassTakesOutStep(order, stats, trucks, n, sqrt);
    }
  }

  /**
   * `truck.route = route` for the assignment `a` just made: the parts of the first pass's state
   * that read districts and bins do not depend on routes, and no other truck's route changes.
   */
  method StoreRoute(order: seq<District>, stats: map<int, WasteStats>, trucks: seq<Truck>, assignments: map<int, Assignment>,
                    available: seq<Truck>, k: nat, sqrt: real -> real, id: int, a: Assignment)
    requires k <= |order| && forall j :: 0 <= j < |order| ==> order[j].districtId in stats
    requires NoDuplicates(trucks) ==> RoutesStored(assignments) && forall id' :: id' in assignments ==> assignments[id'].truck != a.truck
    modifies a.truck`route
    ensures ServedAmong(assignments[id := a], order, k, sqrt) == old(ServedAmong(assignments[id := a], order, k, sqrt))
    ensures Exhausted(order, stats, assignments[id := a], available, k, sqrt) == old(Exhausted(order, stats, assignments[id := a], available, k, sqrt))
    ensures NoDuplicates(trucks) ==> RoutesStored(assignments[id := a])
    ensures forall t :: t in trucks && t !in AssignedTrucks(assignments[id := a]) ==> t.route == old(t.route)
  {
    // A truck is neither a district nor a bin, so the first pass's state is not affected.
    assert forall j :: 0 <= j < |order| ==> order[j] as object != a.truck;
    assert forall o: object :: o in BinsOf(order) ==> o != a.truck;
    AssignedTruck(assignments, id, a);
    a.truck.route := a.route;
  }

  /**
   * A district of the first pass takes the available truck at position `i`, which records the
   * route: the first pass's state does not depend on routes, and no other truck's route changes.
   */
  method TakeTruck(order: seq<District>, stats: map<int, WasteStats>, trucks: seq<Truck>, sqrt: real -> real,
                   k: nat, assignments: map<int, Assignment>, available: seq<Truck>, i: nat, a: Assignment)
    returns (assignments': map<int, Assignment>, available': seq<Truck>)
    requires FirstPass(order, stats, trucks, assignments, available, k, sqrt) && k < |order|
    requires i < |available| && a.truck == available[i] && order[k].districtId !in assignments
    requires DominantType(stats[order[k].districtId]) == a.truck.binTypeSpecialty && ServesDistrict(a, order, k, sqrt)
    requires NoDuplicates(trucks) ==> RoutesStored(assignments)
    modifies a.truck`route
    ensures assignments' == assignments[order[k].districtId := a] && available' == available[..i] + available[i + 1..]
    ensures FirstPassUpTo(order, stats, trucks, k + 1, sqrt) == old(FirstPassUpTo(order, stats, trucks, k + 1, sqrt))
    ensures FirstPass(order, stats, trucks, assignments', available', k + 1, sqrt)
    ensures NoDuplicates(trucks) ==> RoutesStored(assignments')
    ensures forall t :: t in available' ==> t in available
    ensures forall t :: t in trucks && t !in AssignedTrucks(assignments') ==> t.route == old(t.route)
  {
    PassAssigned(order, stats, trucks, assignments, available, k, i, a, sqrt);
    assignments', available' := assignments[order[k].districtId := a], available[..i] + available[i + 1..];
    StoreRoute(order, stats, trucks, assignments, available', k + 1, sqrt, order[k].districtId, a);
    assert forall b :: b in old(BinsOf(order)) ==> allocated(b);
    assert FirstPassUpTo(order, stats, trucks, k + 1, sqrt) == old(FirstPassUpTo(order, stats, trucks, k + 1, sqrt));
  }

  /**
   * An unassigned district whose dominant type is `wanted` takes the truck of `available` at
   * position `found`, the first truck specialised in it with a route through the district.
   */
  method OfferSpecialisedTruck(order: seq<District>, stats: map<int, WasteStats>, trucks: seq<Truck>, sqrt: real -> real,
                               k: nat, assignments: map<int, Assignment>, available: seq<Truck>, wanted: string,
                               found: Option<nat>, route: seq<WasteBin>, distance: Option<real>)
    returns (assignments': map<int, Assignment>, available': seq<Truck>)
    requires FirstPass(order, stats, trucks, assignments, available, k, sqrt) && k < |order|
    requires order[k].districtId !in assignments && DominantType(stats[order[k].districtId]) == Some(wanted)
    requires found.Some? ==> found.value < |available| && available[found.value].binTypeSpecialty == Some(wanted)
    requires found.Some? ==> route != [] && (route, distance) == PlannedRoute(available[found.value], order[k].wasteBins, Origin, sqrt)
    requires found.None? ==> NoneBefore(available, wanted, order[k].wasteBins, sqrt, |available|)
    requires found == FirstRoutable(available, wanted, order[k].wasteBins, sqrt, 0)
    requires (assignments, available) == FirstPassUpTo(order, stats, trucks, k, sqrt)
    requires NoDuplicates(trucks) ==> RoutesStored(assignments)
    modifies set t | t in trucks :: t`route
    ensures (assignments', available') == FirstPassUpTo(order, stats, trucks, k + 1, sqrt)
    ensures found.Some? ==> assignments' == assignments[order[k].districtId := Assignment(available[found.value], route, distance)]
    ensures found.Some? ==> available' == available[..found.value] + available[found.value + 1..]
    ensures found.None? ==> assignments' == assignments && available' == available
    ensures FirstPass(order, stats, trucks, assignments', available', k + 1, sqrt)
    ensures Extends(assignments, assignments')
    ensures NoDuplicates(trucks) ==> RoutesStored(assignments')
    ensures forall t :: t in available' ==> t in available
    ensures forall t :: t in trucks && t !in AssignedTrucks(assignments') ==> t.route == old(t.route)
  {
    FirstPassUpToStep(order, stats, trucks, k, sqrt);
    if found.None? {
      PassUnassigned(order, stats, trucks, assignments, available, k, sqrt);
      assignments', available' := assignments, available;
    } else {
      var i := found.value;
      SpecialisedStepTakes(order[k], stats, assignments, available, sqrt, wanted, i, route, distance);
      assert SpecialisedBooks(stats, trucks, assignments, available);
      assert available[i] in trucks;
      assignments', available' := TakeTruck(order, stats, trucks, sqrt, k, assignments, available, i, Assignment(available[i], route, distance));
    }
  }

  /** An unassigned district whose dominant type is `wanted` looks for a truck specialised in it. */
  method SearchSpecialisedTruck(order: seq<District>, stats: map<int, WasteStats>, trucks: seq<Truck>, sqrt: real -> real,
                                k: nat, assignments: map<int, Assignment>, available: seq<Truck>, wanted: string)
    returns (assignments': map<int, Assignment>, available': seq<Truck>)
    requires FirstPass(order, stats, trucks, assignments, available, k, sqrt) && k < |order|
    requires order[k].districtId !in assignments && DominantType(stats[order[k].districtId]) == Some(wanted)
    requires (assignments, available) == FirstPassUpTo(order, stats, trucks, k, sqrt)
    requires NoDuplicates(trucks) ==> RoutesStored(assignments)
    modifies set t | t in trucks :: t`route
    ensures (assignments', available') == FirstPassUpTo(order, stats, trucks, k + 1, sqrt)
    ensures FirstPass(order, stats, trucks, assignments', available', k + 1, sqrt)
    ensures Extends(assignments, assignments')
    ensures NoDuplicates(trucks) ==> RoutesStored(assignments')
    ensures forall t :: t in available' ==> t in available
    ensures forall t :: t in trucks && t !in AssignedTrucks(assignments') ==> t.route == old(t.route)
  {
    var found, route, distance := FindSpecialisedTruck(available, wanted, order[k].wasteBins, sqrt);
    assert forall b :: b in old(BinsOf(order)) ==> allocated(b);
    assert FirstPassUpTo(order, stats, trucks, k, sqrt) == old(FirstPassUpTo(order, stats, trucks, k, sqrt));
    assert FirstPass(order, stats, trucks, assignments, available, k, sqrt) ==
           old(FirstPass(order, stats, trucks, assignments, available, k, sqrt));
    assignments', available' := OfferSpecialisedTruck(order, stats, trucks, sqrt, k, assignments, available, wanted, found, route, distance);
  }

  /**
   * One district of the first pass: unless it is already assigned or has no dominant type, the
   * first available truck specialised in its dominant type that finds a route takes it.
   */
  method AssignSpecialisedTruck(order: seq<District>, stats: map<int, WasteStats>, trucks: seq<Truck>, sqrt: real -> real,
                                k: nat, assignments: map<int, Assignment>, available: seq<Truck>)
    returns (assignments': map<int, Assignment>, available': seq<Truck>)
    requires FirstPass(order, stats, trucks, assignments, available, k, sqrt) && k < |order|
    requires (assignments, available) == FirstPassUpTo(order, stats, trucks, k, sqrt)
    requires NoDuplicates(trucks) ==> RoutesStored(assignments)
    modifies set t | t in trucks :: t`route
    ensures (assignments', available') == FirstPassUpTo(order, stats, trucks, k + 1, sqrt)
    ensures FirstPass(order, stats, trucks, assignments', available', k + 1, sqrt)
    ensures Extends(assignments, assignments')
    ensures NoDuplicates(trucks) ==> RoutesStored(assignments')
    ensures forall t :: t in available' ==> t in available
    ensures forall t :: t in trucks && t !in AssignedTrucks(assignments') ==> t.route == old(t.route)
  {
    var district := order[k];
    var wanted := DominantType(stats[district.districtId]);
    if district.districtId in assignments || wanted.None? {
      FirstPassUpToStep(order, stats, trucks, k, sqrt);
      PassUnassigned(order, stats, trucks, assignments, available, k, sqrt);
      assignments', available' := assignments, available;
    } else {
      assignments', available' := SearchSpecialisedTruck(order, stats, trucks, sqrt, k, assignments, available, wanted.value);
    }
  }

  /**
   * The first pass: in volume order, a district whose recyclable or non-recyclable volume
   * strictly dominates gets the first remaining truck specialised in that type that finds a
   * route; that truck leaves `available`.
   */
  method AssignSpecialisedTrucks(order: seq<District>, stats: map<int, WasteStats>, trucks: seq<Truck>, sqrt: real -> real)
    returns (assignments: map<int, Assignment>, available: seq<Truck>)
    requires forall k :: 0 <= k < |order| ==> order[k].districtId in stats
    modifies set t | t in trucks :: t`route
    ensures FirstPass(order, stats, trucks, assignments, available, |order|, sqrt)
    ensures (assignments, available) == FirstPassUpTo(order, stats, trucks, |order|, sqrt)
    ensures NoDuplicates(trucks) ==> RoutesStored(assignments)
    ensures forall t :: t in trucks && t !in AssignedTrucks(assignments) ==> t.route == old(t.route)
  {
    assignments, available := map[], trucks;
    var k := 0;
    while k < |order|
      invariant FirstPass(order, stats, trucks, assignments, available, k, sqrt)
      invariant (assignments, available) == FirstPassUpTo(order, stats, trucks, k, sqrt)
      invariant NoDuplicates(trucks) ==> RoutesStored(assignments)
      invariant forall t :: t in trucks && t !in AssignedTrucks(assignments) ==> t.route == old(t.route)
    {
      ghost var previous := assignments;
      assignments, available := AssignSpecialisedTruck(order, stats, trucks, sqrt, k, assignments, available);
      AssignedTrucksGrow(previous, assignments);
      k := k + 1;
    }
  }

  /** Assigning `order[k]` keeps every assignment serving a district among the first `n` of `order`. */
  lemma ServedAmongInsert(assignments: map<int, Assignment>, order: seq<District>, n: nat, k: nat, a: Assignment, sqrt: real -> real)
    requires k < n <= |order| && ServedAmong(assignments, order, n, sqrt) && ServesDistrict(a, order, k, sqrt)
    ensures ServedAmong(assignments[order[k].districtId := a], order, n, sqrt)
  {
  }

  /** `after` keeps every assignment of `before`. */
  ghost predicate Extends(before: map<int, Assignment>, after: map<int, Assignment>)
  {
    forall id :: id in before ==> id in after && after[id] == before[id]
  }

  /**
   * The second pass has taken the first `|leftover| - |available|` trucks of `leftover`, the
   * trucks the first pass left: while trucks remain, every district among the first `k` of
   * `order` that is still unassigned was offered one of them and the planner found no route.
   */
  ghost predicate Offered(order: seq<District>, leftover: seq<Truck>, assignments: map<int, Assignment>,
                          available: seq<Truck>, k: nat, sqrt: real -> real)
    requires k <= |order| && |available| <= |leftover|
    reads order, BinsOf(order)
  {
    available != [] ==>
      forall j :: 0 <= j < k && order[j].districtId !in assignments ==>
        exists i :: 0 <= i < |leftover| - |available| &&
          (BinsOfDistrict(order, j);
           NoRoute(leftover[i], order[j].wasteBins, sqrt))
  }

  /** The second pass's bookkeeping: assigned and remaining trucks come from `trucks`, each at most once. */
  ghost predicate RemainingBooks(trucks: seq<Truck>, leftover: seq<Truck>, before: map<int, Assignment>,
                                 assignments: map<int, Assignment>, available: seq<Truck>)
  {
    && |available| <= |leftover|
    && available == leftover[|leftover| - |available|..]
    && (forall id :: id in assignments ==> assignments[id].truck in trucks)
    && (forall id :: id in assignments && id !in before ==> assignments[id].truck in leftover[..|leftover| - |available|])
    && (forall t :: t in available ==> t in trucks)
    && |available| + |assignments| <= |trucks|
  }

  /**
   * The state of the second pass after the first `k` districts of `order`, starting from the
   * first pass's `before` and `leftover`.
   */
  ghost predicate SecondPass(order: seq<District>, trucks: seq<Truck>, leftover: seq<Truck>, before: map<int, Assignment>,
                             assignments: map<int, Assignment>, available: seq<Truck>, k: nat, sqrt: real -> real)
    reads order, BinsOf(order)
  {
    && k <= |order|
    && ServedAmong(assignments, order, |order|, sqrt)
    && Extends(before, assignments)
    && RemainingBooks(trucks, leftover, before, assignments, available)
    && Offered(order, leftover, assignments, available, k, sqrt)
    && Disjoint(trucks, assignments, available)
  }

  /** A district that is already assigned, or finds no truck left, adds no obligation. */
  lemma OfferedSkip(order: seq<District>, leftover: seq<Truck>, assignments: map<int, Assignment>,
                    available: seq<Truck>, k: nat, sqrt: real -> real)
    requires k < |order| && |available| <= |leftover| && Offered(order, leftover, assignments, available, k, sqrt)
    requires order[k].districtId in assignments || available == []
    ensures Offered(order, leftover, assignments, available, k + 1, sqrt)
  {
    var m := |leftover| - |available|;
    forall j | 0 <= j < k + 1 && order[j].districtId !in assignments && available != []
      ensures exists i :: 0 <= i < m && (BinsOfDistrict(order, j); NoRoute(leftover[i], order[j].wasteBins, sqrt))
    {
      assert j < k;
    }
  }

  /** A district of the second pass that is already assigned or finds no truck left. */
  lemma RemainingSkip(order: seq<District>, trucks: seq<Truck>, leftover: seq<Truck>, before: map<int, Assignment>,
                      assignments: map<int, Assignment>, available: seq<Truck>, k: nat, sqrt: real -> real)
    requires SecondPass(order, trucks, leftover, before, assignments, available, k, sqrt) && k < |order|
    requires order[k].districtId in assignments || available == []
    ensures SecondPass(order, trucks, leftover, before, assignments, available, k + 1, sqrt)
  {
    OfferedSkip(order, leftover, assignments, available, k, sqrt);
  }

  /**
   * The first remaining truck was offered to `order[k]`: if the district is still unassigned
   * afterwards, the planner found no route with that truck.
   */
  lemma OfferedStep(order: seq<District>, leftover: seq<Truck>, assignments: map<int, Assignment>,
                    assignments': map<int, Assignment>, available: seq<Truck>, k: nat, sqrt: real -> real)
    requires k < |order| && 0 < |available| <= |leftover| && available == leftover[|leftover| - |available|..]
    requires Offered(order, leftover, assignments, available, k, sqrt)
    requires forall id :: id in assignments ==> id in assignments'
    requires order[k].districtId !in assignments' ==> NoRoute(available[0], order[k].wasteBins, sqrt)
    ensures Offered(order, leftover, assignments', available[1..], k + 1, sqrt)
  {
    var m := |leftover| - |available|;
    assert leftover[m] == available[0];
    forall j | 0 <= j < k + 1 && order[j].districtId !in assignments' && available[1..] != []
      ensures exists i :: 0 <= i < m + 1 && (BinsOfDistrict(order, j); NoRoute(leftover[i], order[j].wasteBins, sqrt))
    {
      BinsOfDistrict(order, j);
      if j == k {
        assert NoRoute(leftover[m], order[j].wasteBins, sqrt);
      } else {
        var i :| 0 <= i < m && NoRoute(leftover[i], order[j].wasteBins, sqrt);
        assert i < m + 1;
      }
    }
  }

  /** Dropping the first remaining truck, and assigning it as `a` to `id` when `assign` holds, keeps the bookkeeping. */
  lemma BooksTakeFirst(trucks: seq<Truck>, leftover: seq<Truck>, before: map<int, Assignment>,
                       assignments: map<int, Assignment>, available: seq<Truck>, assign: bool, id: int, a: Assignment)
    requires RemainingBooks(trucks, leftover, before, assignments, available)
    requires available != [] && Extends(before, assignments)
    requires assign ==> id !in assignments && a.truck == available[0]
    ensures RemainingBooks(trucks, leftover, before, if assign then assignments[id := a] else assignments, available[1..])
  {
    var m := |leftover| - |available|;
    assert leftover[m] == available[0];
    assert leftover[m + 1..] == available[1..];
    assert leftover[..m] <= leftover[..m + 1];
    assert leftover[..m + 1][m] == available[0];
    if assign {
      assert |assignments[id := a]| == |assignments| + 1;
    }
  }

  /** Dropping the first remaining truck, and assigning it as `a` to `id` when `assign` holds, keeps distinct trucks distinct. */
  lemma DisjointTakeFirst(trucks: seq<Truck>, assignments: map<int, Assignment>, available: seq<Truck>, assign: bool, id: int, a: Assignment)
    requires Disjoint(trucks, assignments, available) && available != []
    requires assign ==> id !in assignments && a.truck == available[0]
    ensures Disjoint(trucks, if assign then assignments[id := a] else assignments, available[1..])
    ensures NoDuplicates(trucks) ==>
      available[0] !in available[1..] && forall id' :: id' in assignments ==> assignments[id'].truck != available[0]
  {
    if NoDuplicates(trucks) {
      RemoveAt(available, 0);
      assert available[..0] + available[1..] == available[1..];
    }
  }

  /** A district of the second pass for which the first remaining truck finds no route: that truck is dropped. */
  lemma RemainingRejected(order: seq<District>, trucks: seq<Truck>, leftover: seq<Truck>, before: map<int, Assignment>,
                          assignments: map<int, Assignment>, available: seq<Truck>, k: nat, sqrt: real -> real)
    requires SecondPass(order, trucks, leftover, before, assignments, available, k, sqrt) && k < |order|
    requires available != [] && NoRoute(available[0], order[k].wasteBins, sqrt)
    ensures SecondPass(order, trucks, leftover, before, assignments, available[1..], k + 1, sqrt)
  {
    OfferedStep(order, leftover, assignments, assignments, available, k, sqrt);
    BooksTakeFirst(trucks, leftover, before, assignments, available, false, 0, Assignment(available[0], [], None));
    DisjointTakeFirst(trucks, assignments, available, false, 0, Assignment(available[0], [], None));
  }

  /** A district of the second pass that takes the first remaining truck. */
  lemma RemainingAssigned(order: seq<District>, trucks: seq<Truck>, leftover: seq<Truck>, before: map<int, Assignment>,
                          assignments: map<int, Assignment>, available: seq<Truck>, k: nat, a: Assignment, sqrt: real -> real)
    requires SecondPass(order, trucks, leftover, before, assignments, available, k, sqrt) && k < |order|
    requires available != [] && a.truck == available[0] && order[k].districtId !in assignments
    requires ServesDistrict(a, order, k, sqrt)
    ensures var assignments' := assignments[order[k].districtId := a];
      && SecondPass(order, trucks, leftover, before, assignments', available[1..], k + 1, sqrt)
      && (NoDuplicates(trucks) ==> a.truck !in available[1..] && forall id :: id in assignments ==> assignments[id].truck != a.truck)
  {
    var id := order[k].districtId;
    var assignments' := assignments[id := a];
    ServedAmongInsert(assignments, order, |order|, k, a, sqrt);
    OfferedStep(order, leftover, assignments, assignments', available, k, sqrt);
    BooksTakeFirst(trucks, leftover, before, assignments, available, true, id, a);
    DisjointTakeFirst(trucks, assignments, available, true, id, a);
  }

  /**
   * What the second pass does with district `d`: unless it is already assigned or no truck
   * remains, the first remaining truck leaves `available`, and takes `d` with the planner's
   * route if that route is not empty.
   */
  ghost function RemainingStep(d: District, assignments: map<int, Assignment>, available: seq<Truck>,
                               sqrt: real -> real): (map<int, Assignment>, seq<Truck>)
    reads d, d.wasteBins
  {
    if d.districtId in assignments || available == [] then (assignments, available)
    else
      var (route, distance) := PlannedRoute(available[0], d.wasteBins, Origin, sqrt);
      (if route != [] then assignments[d.districtId := Assignment(available[0], route, distance)] else assignments,
       available[1..])
  }

  /**
   * The second pass's assignments and remaining trucks after the first `k` districts of `order`,
   * starting from the first pass's `assignments` and remaining trucks `available`.
   */
  ghost function SecondPassUpTo(order: seq<District>, assignments: map<int, Assignment>, available: seq<Truck>, k: nat,
                                sqrt: real -> real): (map<int, Assignment>, seq<Truck>)
    requires k <= |order|
    reads order, BinsOf(order)
    decreases k
  {
    if k == 0 then (assignments, available)
    else
      var (assignments', available') := SecondPassUpTo(order, assignments, available, k - 1, sqrt);
      BinsOfDistrict(order, k - 1);
      RemainingStep(order[k - 1], assignments', available', sqrt)
  }

  lemma SecondPassUpToStep(order: seq<District>, assignments: map<int, Assignment>, available: seq<Truck>, k: nat, sqrt: real -> real)
    requires k < |order|
    ensures var (assignments', available') := SecondPassUpTo(order, assignments, available, k, sqrt);
      SecondPassUpTo(order, assignments, available, k + 1, sqrt) == RemainingStep(order[k], assignments', available', sqrt)
  {
  }

  /** One step of the second pass takes at most the first truck, for the district it may assign. */
  lemma RemainingStepFromFront(d: District, assignments: map<int, Assignment>, available: seq<Truck>, sqrt: real -> real)
    ensures var (assignments', rest) := RemainingStep(d, assignments, available, sqrt);
      && (rest == available || (available != [] && rest == available[1..]))
      && Extends(assignments, assignments')
      && forall id :: id in assignments' && id !in assignments ==> rest != available && assignments'[id].truck == available[0]
  {
  }

  /**
   * What the second pass keeps true of its state, started from `assignments` and `available`:
   * the trucks left are a suffix of `available`, every assignment it started from is kept, and
   * each assignment it adds uses one of the trucks it took from the front.
   */
  ghost predicate FromFront(assignments: map<int, Assignment>, available: seq<Truck>,
                            assignments': map<int, Assignment>, rest: seq<Truck>)
  {
    && |rest| <= |available|
    && (forall j :: 0 <= j < |rest| ==> rest[j] == available[|available| - |rest| + j])
    && Extends(assignments, assignments')
    && forall id :: id in assignments' && id !in assignments ==> assignments'[id].truck in available[..|available| - |rest|]
  }

  /** A step that takes at most the first truck, and assigns only that one, keeps `FromFront`. */
  lemma FromFrontKept(assignments: map<int, Assignment>, available: seq<Truck>, before: map<int, Assignment>, rest: seq<Truck>,
                      after: map<int, Assignment>, rest': seq<Truck>)
    requires FromFront(assignments, available, before, rest)
    requires rest' == rest || (rest != [] && rest' == rest[1..])
    requires Extends(before, after)
    requires forall id :: id in after && id !in before ==> rest' != rest && after[id].truck == rest[0]
    ensures FromFront(assignments, available, after, rest')
  {
    var n, n' := |available| - |rest|, |available| - |rest'|;
    forall id | id in after && id !in assignments ensures after[id].truck in available[..n'] {
      if id in before {
        assert available[..n] <= available[..n'];
      } else {
        assert after[id].truck == available[n] && n < n';
      }
    }
  }

  /** The `k`-th district of the second pass keeps `FromFront`. */
  lemma SecondPassFromFrontStep(order: seq<District>, assignments: map<int, Assignment>, available: seq<Truck>, k: nat, sqrt: real -> real)
    requires 0 < k <= |order|
    requires var p := SecondPassUpTo(order, assignments, available, k - 1, sqrt); FromFront(assignments, available, p.0, p.1)
    ensures var q := SecondPassUpTo(order, assignments, available, k, sqrt); FromFront(assignments, available, q.0, q.1)
  {
    SecondPassUpToStep(order, assignments, available, k - 1, sqrt);
    var p := SecondPassUpTo(order, assignments, available, k - 1, sqrt);
    var q := SecondPassUpTo(order, assignments, available, k, sqrt);
    RemainingStepFromFront(order[k - 1], p.0, p.1, sqrt);
    FromFrontKept(assignments, available, p.0, p.1, q.0, q.1);
  }

  /** The second pass hands out trucks from the front only: `FromFront` holds after every district. */
  lemma SecondPassFromFront(order: seq<District>, assignments: map<int, Assignment>, available: seq<Truck>, k: nat, sqrt: real -> real)
    requires k <= |order|
    ensures var r := SecondPassUpTo(order, assignments, available, k, sqrt); FromFront(assignments, available, r.0, r.1)
  {
    var n := 0;
    while n < k
      invariant n <= k
      invariant var r := SecondPassUpTo(order, assignments, available, n, sqrt); FromFront(assignments, available, r.0, r.1)
    {
      n := n + 1;
      SecondPassFromFrontStep(order, assignments, available, n, sqrt);
    }
  }

  /**
   * `truck.route = route` for the assignment `a` the second pass just made: the parts of the
   * second pass's state that read districts and bins do not depend on routes, and no other
   * truck's route changes.
   */
  method StoreRemainingRoute(order: seq<District>, trucks: seq<Truck>, leftover: seq<Truck>, before: map<int, Assignment>,
                             assignments: map<int, Assignment>, available: seq<Truck>, k: nat, sqrt: real -> real, id: int, a: Assignment)
    requires k <= |order| && |available| <= |leftover|
    requires NoDuplicates(trucks) ==> RoutesStored(assignments) && forall id' :: id' in assignments ==> assignments[id'].truck != a.truck
    modifies a.truck`route
    ensures ServedAmong(assignments[id := a], order, |order|, sqrt) == old(ServedAmong(assignments[id := a], order, |order|, sqrt))
    ensures Offered(order, leftover, assignments[id := a], available, k, sqrt) == old(Offered(order, leftover, assignments[id := a], available, k, sqrt))
    ensures SecondPassUpTo(order, before, leftover, k, sqrt) == old(SecondPassUpTo(order, before, leftover, k, sqrt))
    ensures NoDuplicates(trucks) ==> RoutesStored(assignments[id := a])
    ensures forall t :: t in trucks && t !in AssignedTrucks(assignments[id := a]) ==> t.route == old(t.route)
  {
    // A truck is neither a district nor a bin, so the second pass's state is not affected.
    assert forall j :: 0 <= j < |order| ==> order[j] as object != a.truck;
    assert forall o: object :: o in BinsOf(order) ==> o != a.truck;
    AssignedTruck(assignments, id, a);
    a.truck.route := a.route;
  }

  /** A district of the second pass takes the first remaining truck, which records the route. */
  method TakeRemainingTruck(order: seq<District>, trucks: seq<Truck>, leftover: seq<Truck>, before: map<int, Assignment>,
                            sqrt: real -> real, k: nat, assignments: map<int, Assignment>, available: seq<Truck>, a: Assignment)
    returns (assignments': map<int, Assignment>, available': seq<Truck>)
    requires SecondPass(order, trucks, leftover, before, assignments, available, k, sqrt) && k < |order|
    requires available != [] && a.truck == available[0] && order[k].districtId !in assignments
    requires ServesDistrict(a, order, k, sqrt)
    requires NoDuplicates(trucks) ==> RoutesStored(assignments)
    modifies a.truck`route
    ensures assignments' == assignments[order[k].districtId := a] && available' == available[1..]
    ensures SecondPassUpTo(order, before, leftover, k + 1, sqrt) == old(SecondPassUpTo(order, before, leftover, k + 1, sqrt))
    ensures SecondPass(order, trucks, leftover, before, assignments', available', k + 1, sqrt)
    ensures NoDuplicates(trucks) ==> RoutesStored(assignments')
    ensures forall t :: t in trucks && t !in AssignedTrucks(assignments') ==> t.route == old(t.route)
  {
    RemainingAssigned(order, trucks, leftover, before, assignments, available, k, a, sqrt);
    assignments', available' := assignments[order[k].districtId := a], available[1..];
    StoreRemainingRoute(order, trucks, leftover, before, assignments, available', k + 1, sqrt, order[k].districtId, a);
  }

  /** A district of the second pass, still unassigned, gets the first remaining truck if the planner found a route with it. */
  method OfferRemainingTruck(order: seq<District>, trucks: seq<Truck>, leftover: seq<Truck>, before: map<int, Assignment>,
                             sqrt: real -> real, k: nat, assignments: map<int, Assignment>, available: seq<Truck>,
                             route: seq<WasteBin>, distance: Option<real>)
    returns (assignments': map<int, Assignment>, available': seq<Truck>)
    requires SecondPass(order, trucks, leftover, before, assignments, available, k, sqrt) && k < |order|
    requires order[k].districtId !in assignments && available != []
    requires (route, distance) == PlannedRoute(available[0], order[k].wasteBins, Origin, sqrt)
    requires (assignments, available) == SecondPassUpTo(order, before, leftover, k, sqrt)
    requires NoDuplicates(trucks) ==> RoutesStored(assignments)
    modifies set t | t in trucks :: t`route
    ensures (assignments', available') == SecondPassUpTo(order, before, leftover, k + 1, sqrt)
    ensures SecondPass(order, trucks, leftover, before, assignments', available', k + 1, sqrt)
    ensures Extends(assignments, assignments')
    ensures NoDuplicates(trucks) ==> RoutesStored(assignments')
    ensures available' == available[1..]
    ensures assignments' == if route != [] then assignments[order[k].districtId := Assignment(available[0], route, distance)] else assignments
    ensures forall t :: t in trucks && t !in AssignedTrucks(assignments') ==> t.route == old(t.route)
  {
    SecondPassUpToStep(order, before, leftover, k, sqrt);
    var truck := available[0];
    available' := available[1..];
    if route == [] {
      RemainingRejected(order, trucks, leftover, before, assignments, available, k, sqrt);
      assignments' := assignments;
    } else {
      assert RemainingBooks(trucks, leftover, before, assignments, available);
      assert truck in trucks;
      BinsOfDistrict(order, k);
      assignments', available' := TakeRemainingTruck(order, trucks, leftover, before, sqrt, k, assignments, available, Assignment(truck, route, distance));
    }
  }

  /** The planner runs for a district of the second pass, still unassigned, with the first remaining truck. */
  method PlanRemainingTruck(order: seq<District>, trucks: seq<Truck>, leftover: seq<Truck>, before: map<int, Assignment>,
                            sqrt: real -> real, k: nat, assignments: map<int, Assignment>, available: seq<Truck>)
    returns (assignments': map<int, Assignment>, available': seq<Truck>)
    requires SecondPass(order, trucks, leftover, before, assignments, available, k, sqrt) && k < |order|
    requires order[k].districtId !in assignments && available != []
    requires (assignments, available) == SecondPassUpTo(order, before, leftover, k, sqrt)
    requires NoDuplicates(trucks) ==> RoutesStored(assignments)
    modifies set t | t in trucks :: t`route
    ensures (assignments', available') == SecondPassUpTo(order, before, leftover, k + 1, sqrt)
    ensures var (route, distance) := old(PlannedRoute(available[0], order[k].wasteBins, Origin, sqrt));
      assignments' == if route != [] then assignments[order[k].districtId := Assignment(available[0], route, distance)] else assignments
    ensures SecondPass(order, trucks, leftover, before, assignments', available', k + 1, sqrt)
    ensures Extends(assignments, assignments')
    ensures NoDuplicates(trucks) ==> RoutesStored(assignments')
    ensures available' == available[1..]
    ensures forall t :: t in trucks && t !in AssignedTrucks(assignments') ==> t.route == old(t.route)
  {
    var route, distance := OptimizeRouteBacktracking(available[0], order[k].wasteBins, Origin, sqrt);
    assert forall b :: b in old(BinsOf(order)) ==> allocated(b);
    assert SecondPassUpTo(order, before, leftover, k, sqrt) == old(SecondPassUpTo(order, before, leftover, k, sqrt));
    assert (route, distance) == old(PlannedRoute(available[0], order[k].wasteBins, Origin, sqrt));
    assignments', available' := OfferRemainingTruck(order, trucks, leftover, before, sqrt, k, assignments, available, route, distance);
  }

  /** One district of the second pass: unless it is already assigned, it is offered the first remaining truck, if any. */
  method AssignRemainingTruck(order: seq<District>, trucks: seq<Truck>, leftover: seq<Truck>, before: map<int, Assignment>,
                              sqrt: real -> real, k: nat, assignments: map<int, Assignment>, available: seq<Truck>)
    returns (assignments': map<int, Assignment>, available': seq<Truck>)
    requires SecondPass(order, trucks, leftover, before, assignments, available, k, sqrt) && k < |order|
    requires (assignments, available) == SecondPassUpTo(order, before, leftover, k, sqrt)
    requires NoDuplicates(trucks) ==> RoutesStored(assignments)
    modifies set t | t in trucks :: t`route
    ensures (assignments', available') == SecondPassUpTo(order, before, leftover, k + 1, sqrt)
    ensures order[k].districtId !in assignments && available != [] ==>
      var (route, distance) := old(PlannedRoute(available[0], order[k].wasteBins, Origin, sqrt));
      assignments' == if route != [] then assignments[order[k].districtId := Assignment(available[0], route, distance)] else assignments
    ensures order[k].districtId in assignments || available == [] ==> assignments' == assignments
    ensures SecondPass(order, trucks, leftover, before, assignments', available', k + 1, sqrt)
    ensures Extends(assignments, assignments')
    ensures NoDuplicates(trucks) ==> RoutesStored(assignments')
    ensures available' == if order[k].districtId in assignments || available == [] then available else available[1..]
    ensures forall t :: t in trucks && t !in AssignedTrucks(assignments') ==> t.route == old(t.route)
  {
    if order[k].districtId in assignments || available == [] {
      SecondPassUpToStep(order, before, leftover, k, sqrt);
      RemainingSkip(order, trucks, leftover, before, assignments, available, k, sqrt);
      assignments', available' := assignments, available;
    } else {
      assignments', available' := PlanRemainingTruck(order, trucks, leftover, before, sqrt, k, assignments, available);
    }
  }

  /**
   * The second pass: in volume order, a district still unassigned takes the first remaining
   * truck, which leaves the list whether or not the planner finds a route with it.
   */
  method AssignRemainingTrucks(order: seq<District>, trucks: seq<Truck>, sqrt: real -> real,
                               before: map<int, Assignment>, leftover: seq<Truck>)
    returns (assignments: map<int, Assignment>, available: seq<Truck>)
    requires SecondPass(order, trucks, leftover, before, before, leftover, 0, sqrt)
    requires NoDuplicates(trucks) ==> RoutesStored(before)
    modifies set t | t in trucks :: t`route
    ensures SecondPass(order, trucks, leftover, before, assignments, available, |order|, sqrt)
    ensures (assignments, available) == SecondPassUpTo(order, before, leftover, |order|, sqrt)
    ensures NoDuplicates(trucks) ==> RoutesStored(assignments)
    ensures forall t :: t in trucks && t !in AssignedTrucks(assignments) ==> t.route == old(t.route)
  {
    assignments, available := before, leftover;
    var k := 0;
    while k < |order|
      invariant k <= |order|
      invariant (assignments, available) == SecondPassUpTo(order, before, leftover, k, sqrt)
      invariant SecondPass(order, trucks, leftover, before, assignments, available, k, sqrt)
      invariant NoDuplicates(trucks) ==> RoutesStored(assignments)
      invariant forall t :: t in trucks && t !in AssignedTrucks(assignments) ==> t.route == old(t.route)
    {
      ghost var previous := assignments;
      assignments, available := AssignRemainingTruck(order, trucks, leftover, before, sqrt, k, assignments, available);
      AssignedTrucksGrow(previous, assignments);
      k := k + 1;
    }
  }

  /** The first pass's final state is the second pass's initial state. */
  lemma SecondPassStart(order: seq<District>, stats: map<int, WasteStats>, trucks: seq<Truck>,
                        assignments: map<int, Assignment>, available: seq<Truck>, sqrt: real -> real)
    requires FirstPass(order, stats, trucks, assignments, available, |order|, sqrt)
    ensures SecondPass(order, trucks, available, assignments, assignments, available, 0, sqrt)
  {
    assert available[|available| - |available|..] == available;
  }

  /**
   * What the two passes leave, restated over the caller's `districts` and `trucks`, of which
   * `order` and `sorted` are rearrangements.
   */
  lemma PassesOutcome(districts: seq<District>, trucks: seq<Truck>, order: seq<District>, sorted: seq<Truck>,
                      leftover: seq<Truck>, before: map<int, Assignment>, assignments: map<int, Assignment>,
                      available: seq<Truck>, sqrt: real -> real)
    requires multiset(order) == multiset(districts) && multiset(sorted) == multiset(trucks)
    requires SecondPass(order, sorted, leftover, before, assignments, available, |order|, sqrt)
    requires forall t :: t in leftover ==> t in sorted
    ensures forall id :: id in assignments ==>
      assignments[id].truck in trucks &&
      exists d :: d in districts && d.districtId == id && Serves(assignments[id], d.wasteBins, sqrt)
    ensures |assignments| <= |trucks|
    ensures forall t :: t in available ==> t in trucks
    ensures available != [] ==> forall d :: d in districts && d.districtId !in assignments ==>
      exists t :: t in trucks && NoRoute(t, d.wasteBins, sqrt)
    ensures NoDuplicates(trucks) ==>
      && (forall id1, id2 :: id1 in assignments && id2 in assignments && id1 != id2 ==>
            assignments[id1].truck != assignments[id2].truck)
      && (forall t :: t in available ==> t !in AssignedTrucks(assignments))
  {
    assert |sorted| == |multiset(sorted)| == |multiset(trucks)| == |trucks|;
    forall t | t in sorted ensures t in trucks {
      assert t in multiset(sorted);
    }
    forall id | id in assignments
      ensures exists d :: d in districts && d.districtId == id && Serves(assignments[id], d.wasteBins, sqrt)
    {
      var j :| 0 <= j < |order| && order[j].districtId == id && ServesDistrict(assignments[id], order, j, sqrt);
      assert order[j] in multiset(districts);
    }
    if available != [] {
      forall d | d in districts && d.districtId !in assignments
        ensures exists t :: t in trucks && NoRoute(t, d.wasteBins, sqrt)
      {
        assert d in multiset(order);
        var j :| 0 <= j < |order| && order[j] == d;
        var i :| 0 <= i < |leftover| - |available| && (BinsOfDistrict(order, j); NoRoute(leftover[i], order[j].wasteBins, sqrt));
        assert leftover[i] in sorted;
      }
    }
    NoDuplicatesPermutation(sorted, trucks);
    if NoDuplicates(trucks) {
      forall t | t in available ensures t !in AssignedTrucks(assignments) {
        assert forall id :: id in assignments ==> assignments[id].truck != t;
      }
    }
  }

  /**
   * The value of `assign_trucks_to_districts`, with the trucks it leaves unused: the first pass
   * and then the second pass over the districts in order of urgent volume, starting from the
   * trucks in order of capacity.
   */
  ghost function Plan(trucks: seq<Truck>, districts: seq<District>, sqrt: real -> real): (map<int, Assignment>, seq<Truck>)
    reads districts, BinsOf(districts)
  {
    VolumeOrderCovers(districts);
    PlanInOrder(DistrictsByVolume(districts), StatsMap(districts), TrucksByCapacity(trucks), sqrt)
  }

  lemma PlanFromParts(trucks: seq<Truck>, districts: seq<District>, sqrt: real -> real,
                      stats: map<int, WasteStats>, result: (map<int, Assignment>, seq<Truck>))
    requires stats == StatsMap(districts)
    requires forall j :: 0 <= j < |DistrictsByVolume(districts)| ==> DistrictsByVolume(districts)[j].districtId in stats
    requires result == PlanInOrder(DistrictsByVolume(districts), stats, TrucksByCapacity(trucks), sqrt)
    ensures result == Plan(trucks, districts, sqrt)
  {
  }

  /**
   * The trucks `assign_trucks_to_districts` leaves unused are trucks of the input, in order of
   * non-increasing capacity, and each district served holds a truck of the input.
   */
  lemma PlanUnused(trucks: seq<Truck>, districts: seq<District>, sqrt: real -> real)
    ensures var (assignments, unused) := Plan(trucks, districts, sqrt);
      && multiset(unused) <= multiset(trucks)
      && ByCapacity(unused)
      && forall id :: id in assignments ==> assignments[id].truck in trucks
  {
    VolumeOrderCovers(districts);
    var order, stats, sorted := DistrictsByVolume(districts), StatsMap(districts), TrucksByCapacity(trucks);
    FirstPassTakesOut(order, stats, sorted, |order|, sqrt);
    var first := FirstPassUpTo(order, stats, sorted, |order|, sqrt);
    SecondPassFromFront(order, first.0, first.1, |order|, sqrt);
    var second := SecondPassUpTo(order, first.0, first.1, |order|, sqrt);
    BothPassesKeepTrucks(trucks, sorted, stats, first.0, first.1, second.0, second.1);
  }

  /** `TakenOut` followed by `FromFront`, from trucks in capacity order, leaves the facts of `PlanUnused`. */
  lemma BothPassesKeepTrucks(trucks: seq<Truck>, sorted: seq<Truck>, stats: map<int, WasteStats>,
                             first: map<int, Assignment>, rest: seq<Truck>, assignments: map<int, Assignment>, unused: seq<Truck>)
    requires multiset(sorted) == multiset(trucks) && ByCapacity(sorted)
    requires TakenOut(stats, sorted, first, rest) && FromFront(first, rest, assignments, unused)
    ensures multiset(unused) <= multiset(trucks)
    ensures ByCapacity(unused)
    ensures forall id :: id in assignments ==> assignments[id].truck in trucks
  {
    var n := |rest| - |unused|;
    assert rest == rest[..n] + unused;
    forall a, b | 0 <= a < b < |unused| ensures unused[a].capacity >= unused[b].capacity {
      assert unused[a] == rest[n + a] && unused[b] == rest[n + b];
    }
    forall id | id in assignments ensures assignments[id].truck in trucks {
      var t := assignments[id].truck;
      if id !in first {
        assert t in rest;
        assert t in multiset(rest);
      }
      assert t in multiset(sorted);
    }
  }

  /** Both passes over districts already in volume order and trucks already in capacity order. */
  ghost function PlanInOrder(order: seq<District>, stats: map<int, WasteStats>, sorted: seq<Truck>, sqrt: real -> real): (map<int, Assignment>, seq<Truck>)
    requires forall j :: 0 <= j < |order| ==> order[j].districtId in stats
    reads order, BinsOf(order)
  {
    var (first, rest) := FirstPassUpTo(order, stats, sorted, |order|, sqrt);
    SecondPassUpTo(order, first, rest, |order|, sqrt)
  }

  /** The districts in volume order are districts of the input, so they have statistics and hold no other bins. */
  lemma VolumeOrderCovers(districts: seq<District>)
    ensures var order := DistrictsByVolume(districts);
      && (forall d :: d in order ==> d in districts)
      && (forall j :: 0 <= j < |order| ==> order[j].districtId in StatsMap(districts))
      && BinsOf(order) <= BinsOf(districts)
  {
    var order := DistrictsByVolume(districts);
    forall d | d in order ensures d in districts {
      assert d in multiset(districts);
    }
    BinsOfSub(order, districts);
    StatsMapKeys(districts);
    forall j | 0 <= j < |order| ensures order[j].districtId in StatsMap(districts) {
      assert order[j] in districts;
      var i :| 0 <= i < |districts| && districts[i] == order[j];
    }
  }

  /** Both passes over districts already in volume order and trucks already in capacity order. */
  method AssignInOrder(order: seq<District>, stats: map<int, WasteStats>, sorted: seq<Truck>, sqrt: real -> real)
    returns (assignments: map<int, Assignment>, available: seq<Truck>, ghost before: map<int, Assignment>, ghost leftover: seq<Truck>)
    requires forall k :: 0 <= k < |order| ==> order[k].districtId in stats
    modifies set t | t in sorted :: t`route
    ensures SecondPass(order, sorted, leftover, before, assignments, available, |order|, sqrt)
    ensures (before, leftover) == FirstPassUpTo(order, stats, sorted, |order|, sqrt)
    ensures (assignments, available) == SecondPassUpTo(order, before, leftover, |order|, sqrt)
    ensures forall t :: t in leftover ==> t in sorted
    ensures NoDuplicates(sorted) ==> RoutesStored(assignments)
    ensures forall t :: t in sorted && t !in AssignedTrucks(assignments) ==> t.route == old(t.route)
  {
    var first, rest := AssignSpecialisedTrucks(order, stats, sorted, sqrt);
    SecondPassStart(order, stats, sorted, first, rest, sqrt);
    label FirstDone:
    assignments, available := AssignRemainingTrucks(order, sorted, sqrt, first, rest);
    assert forall b :: b in old@FirstDone(BinsOf(order)) ==> allocated(b);
    assert FirstPassUpTo(order, stats, sorted, |order|, sqrt) == old@FirstDone(FirstPassUpTo(order, stats, sorted, |order|, sqrt));
    AssignedTrucksGrow(first, assignments);
    before, leftover := first, rest;
  }

  /** The result of both passes is the one `PlanInOrder` gives for the bins as they were before. */
  method AssignBothPasses(order: seq<District>, stats: map<int, WasteStats>, sorted: seq<Truck>, sqrt: real -> real)
    returns (assignments: map<int, Assignment>, available: seq<Truck>, ghost before: map<int, Assignment>, ghost leftover: seq<Truck>)
    requires forall k :: 0 <= k < |order| ==> order[k].districtId in stats
    modifies set t | t in sorted :: t`route
    ensures (assignments, available) == old(PlanInOrder(order, stats, sorted, sqrt))
    ensures SecondPass(order, sorted, leftover, before, assignments, available, |order|, sqrt)
    ensures forall t :: t in leftover ==> t in sorted
    ensures NoDuplicates(sorted) ==> RoutesStored(assignments)
    ensures forall t :: t in sorted && t !in AssignedTrucks(assignments) ==> t.route == old(t.route)
  {
    assignments, available, before, leftover := AssignInOrder(order, stats, sorted, sqrt);
    assert forall b :: b in old(BinsOf(order)) ==> allocated(b);
    assert PlanInOrder(order, stats, sorted, sqrt) == old(PlanInOrder(order, stats, sorted, sqrt));
  }

  /**
   * The body of `assign_trucks_to_districts`: it sorts, gathers the statistics and runs both
   * passes; the ghost results are the sorted districts and trucks and the first pass's outcome.
   */
  method SortAndAssign(trucks: seq<Truck>, districts: seq<District>, sqrt: real -> real)
    returns (assignments: map<int, Assignment>, ghost unused: seq<Truck>, ghost order: seq<District>, ghost sorted: seq<Truck>,
             ghost before: map<int, Assignment>, ghost leftover: seq<Truck>)
    modifies set t | t in trucks :: t`route
    ensures (assignments, unused) == old(Plan(trucks, districts, sqrt))
    ensures multiset(order) == multiset(districts) && multiset(sorted) == multiset(trucks)
    ensures SecondPass(order, sorted, leftover, before, assignments, unused, |order|, sqrt)
    ensures forall t :: t in leftover ==> t in sorted
    ensures NoDuplicates(sorted) ==> RoutesStored(assignments)
    ensures forall t :: t in trucks && t !in AssignedTrucks(assignments) ==> t.route == old(t.route)
  {
    var stats := DistrictStats(districts);
    assert forall b :: b in old(BinsOf(districts)) ==> allocated(b);
    assert Plan(trucks, districts, sqrt) == old(Plan(trucks, districts, sqrt));
    var byVolume := DistrictsByVolume(districts);
    var byCapacity := TrucksByCapacity(trucks);
    VolumeOrderCovers(districts);
    ghost var expected := PlanInOrder(byVolume, stats, byCapacity, sqrt);
    PlanFromParts(trucks, districts, sqrt, stats, expected);
    forall t | t in byCapacity ensures t in trucks {
      assert t in multiset(byCapacity);
    }
    assignments, unused, before, leftover := AssignBothPasses(byVolume, stats, byCapacity, sqrt);
    order, sorted := byVolume, byCapacity;
  }

  /**
   * The whole assignment: districts in order of urgent volume, trucks in order of capacity, a
   * first pass for specialised trucks and a second pass for the rest. Every assignment holds the
   * planner's route for a district of `districts` with a truck of `trucks`; if a truck is left
   * over, every unserved district was offered a truck for which the planner found no route.
   */
  method AssignTrucksToDistricts(trucks: seq<Truck>, districts: seq<District>, sqrt: real -> real)
    returns (assignments: map<int, Assignment>, ghost unused: seq<Truck>)
    modifies set t | t in trucks :: t`route
    ensures (assignments, unused) == old(Plan(trucks, districts, sqrt))
    ensures forall id :: id in assignments ==>
      assignments[id].truck in trucks &&
      exists d :: d in districts && d.districtId == id && Serves(assignments[id], d.wasteBins, sqrt)
    ensures |assignments| <= |trucks|
    ensures forall t :: t in unused ==> t in trucks
    ensures unused != [] ==> forall d :: d in districts && d.districtId !in assignments ==>
      exists t :: t in trucks && NoRoute(t, d.wasteBins, sqrt)
    ensures NoDuplicates(trucks) ==>
      && RoutesStored(assignments)
      && (forall id1, id2 :: id1 in assignments && id2 in assignments && id1 != id2 ==>
            assignments[id1].truck != assignments[id2].truck)
      && (forall t :: t in unused ==> t !in AssignedTrucks(assignments))
    ensures forall t :: t in trucks && t !in AssignedTrucks(assignments) ==> t.route == old(t.route)
  {
    ghost var order, sorted, before, leftover;
    assignments, unused, order, sorted, before, leftover := SortAndAssign(trucks, districts, sqrt);
    NoDuplicatesPermutation(sorted, trucks);
    PassesOutcome(districts, trucks, order, sorted, leftover, before, assignments, unused, sqrt);
  }
}
