/**
 * A value model of the depth-first search inside `optimize_route_backtracking`.
 *
 * The search runs over the working set of bins. A partial route is a sequence of positions in
 * that set. From a partial route the search either records it (when it is complete) or tries
 * every position in increasing order that is unvisited, fits the remaining capacity and
 * satisfies the truck's type rule. `Visit` and `Children` follow that order exactly, so they
 * also fix which of several equally short routes wins: the first one reached.
 */
module RouteSearch {
  import opened Wrappers
  import opened Geometry
  import opened Sequences

  /** What the search reads of one working-set bin. */
  datatype Stop = Stop(level: real, accepted: bool, loc: Point)

  /** One search: the working set, the truck's capacity and the optional start point. */
  datatype Problem = Problem(stops: seq<Stop>, capacity: real, start: Option<Point>, sqrt: real -> real)

  /** A recorded route, as positions in the working set, with its distance. */
  datatype Found = Found(path: seq<nat>, dist: real)

  ghost predicate ValidPath(pb: Problem, p: seq<nat>)
  {
    InRange(p, |pb.stops|) && NoDuplicates(p)
  }

  /** The running `current_load`: levels added one stop at a time. */
  ghost function Load(pb: Problem, p: seq<nat>): real
    requires InRange(p, |pb.stops|)
    decreases |p|
  {
    if p == [] then 0.0 else Load(pb, p[..|p| - 1]) + pb.stops[p[|p| - 1]].level
  }

  /**
   * The distance added when stop `i` follows the partial route `p`: from the last stop, or
   * from the start point for the first stop, or nothing when there is no start point.
   */
  ghost function Leg(pb: Problem, p: seq<nat>, i: nat): real
    requires InRange(p, |pb.stops|) && i < |pb.stops|
  {
    if p != [] then Distance(pb.stops[p[|p| - 1]].loc, pb.stops[i].loc, pb.sqrt)
    else match pb.start
      case None => 0.0
      case Some(s) => Distance(s, pb.stops[i].loc, pb.sqrt)
  }

  /** The running `current_distance`: legs added one stop at a time. */
  ghost function PathDist(pb: Problem, p: seq<nat>): real
    requires InRange(p, |pb.stops|)
    decreases |p|
  {
    if p == [] then 0.0 else PathDist(pb, p[..|p| - 1]) + Leg(pb, p[..|p| - 1], p[|p| - 1])
  }

  /** Every bin visited, or the load at 90 % of capacity or more. */
  ghost predicate Complete(pb: Problem, p: seq<nat>)
    requires InRange(p, |pb.stops|)
  {
    (forall i :: 0 <= i < |pb.stops| ==> i in p) || Load(pb, p) >= pb.capacity * 0.9
  }

  /** Stop `i` may follow `p`: not visited, fits the capacity, passes the type rule. */
  ghost predicate Admissible(pb: Problem, p: seq<nat>, i: nat)
    requires InRange(p, |pb.stops|) && i < |pb.stops|
  {
    i !in p && Load(pb, p) + pb.stops[i].level <= pb.capacity && pb.stops[i].accepted
  }

  ghost function Unvisited(n: nat, p: seq<nat>): set<nat>
  {
    set i | 0 <= i < n && i !in p
  }

  lemma UnvisitedShrinks(n: nat, p: seq<nat>, i: nat)
    requires i < n && i !in p
    ensures Unvisited(n, p + [i]) < Unvisited(n, p)
  {
    assert i in Unvisited(n, p) && i !in Unvisited(n, p + [i]);
  }

  /** Appending a stop adds its level to the load and its leg to the distance. */
  lemma PathStep(pb: Problem, p: seq<nat>, i: nat)
    requires InRange(p, |pb.stops|) && i < |pb.stops|
    ensures InRange(p + [i], |pb.stops|)
    ensures Load(pb, p + [i]) == Load(pb, p) + pb.stops[i].level
    ensures PathDist(pb, p + [i]) == PathDist(pb, p) + Leg(pb, p, i)
  {
    assert (p + [i])[..|p|] == p;
  }

  /** A complete route replaces the best one only when it is strictly shorter. */
  ghost function Record(best: Option<Found>, p: seq<nat>, d: real): Option<Found>
  {
    if best.None? || d < best.value.dist then Some(Found(p, d)) else best
  }

  ghost predicate Kept(pb: Problem, best: Option<Found>)
  {
    best.Some? ==> ValidPath(pb, best.value.path)
  }

  /** `backtrack` entered with the partial route `p` and best-so-far `best`. */
  ghost function Visit(pb: Problem, p: seq<nat>, best: Option<Found>): (r: Option<Found>)
    requires ValidPath(pb, p) && Kept(pb, best)
    ensures Kept(pb, r)
    decreases Unvisited(|pb.stops|, p), 1
  {
    if Complete(pb, p) then Record(best, p, PathDist(pb, p))
    else Children(pb, p, 0, best)
  }

  /** The loop of `backtrack` over positions `i`, ..., `|stops| - 1`. */
  ghost function Children(pb: Problem, p: seq<nat>, i: nat, best: Option<Found>): (r: Option<Found>)
    requires ValidPath(pb, p) && i <= |pb.stops| && Kept(pb, best)
    ensures Kept(pb, r)
    decreases Unvisited(|pb.stops|, p), 0, |pb.stops| - i
  {
    if i == |pb.stops| then best
    else if Admissible(pb, p, i) then
      UnvisitedShrinks(|pb.stops|, p, i);
      Children(pb, p, i + 1, Visit(pb, p + [i], best))
    else Children(pb, p, i + 1, best)
  }

  /** The whole search: `backtrack(start_point, 0)` with nothing recorded yet. */
  ghost function Search(pb: Problem): Option<Found>
  {
    Visit(pb, [], None)
  }

  // ---------------------------------------------------------------------------------------
  // What the search can record

  /** Every proper prefix of `q` was incomplete and every step of `q` was admissible. */
  ghost predicate Reachable(pb: Problem, q: seq<nat>)
  {
    ValidPath(pb, q) &&
    forall k :: 0 <= k < |q| ==> !Complete(pb, q[..k]) && Admissible(pb, q[..k], q[k])
  }

  /** A complete feasible ordering: a route the search can record. */
  ghost predicate Candidate(pb: Problem, q: seq<nat>)
  {
    Reachable(pb, q) && Complete(pb, q)
  }

  ghost predicate Extends(pb: Problem, p: seq<nat>, q: seq<nat>)
  {
    Candidate(pb, q) && |p| <= |q| && q[..|p|] == p
  }

  /** Candidates below `p` whose next stop is `i` or later. */
  ghost predicate InSubtrees(pb: Problem, p: seq<nat>, i: nat, q: seq<nat>)
  {
    Extends(pb, p, q) && |p| < |q| && i <= q[|p|]
  }

  /** `a` is reached before `b` by a search that tries positions in increasing order. */
  ghost predicate Before(a: seq<nat>, b: seq<nat>)
  {
    exists k :: 0 <= k < |a| && k < |b| && a[..k] == b[..k] && a[k] < b[k]
  }

  ghost predicate Consistent(pb: Problem, best: Option<Found>)
  {
    best.Some? ==> Candidate(pb, best.value.path) && best.value.dist == PathDist(pb, best.value.path)
  }

  lemma ReachableStep(pb: Problem, p: seq<nat>, i: nat)
    requires Reachable(pb, p) && !Complete(pb, p) && i < |pb.stops| && Admissible(pb, p, i)
    ensures Reachable(pb, p + [i])
  {
    var q := p + [i];
    assert q[..|p|] == p;
    forall k | 0 <= k < |p| ensures q[..k] == p[..k] {
    }
  }

  lemma ExtendsStep(pb: Problem, p: seq<nat>, q: seq<nat>)
    requires Extends(pb, p, q) && |p| < |q|
    ensures !Complete(pb, p) && Admissible(pb, p, q[|p|])
    ensures Extends(pb, p + [q[|p|]], q)
  {
    assert q[..|p| + 1] == p + [q[|p|]];
  }

  lemma ExtendsComplete(pb: Problem, p: seq<nat>, q: seq<nat>)
    requires Extends(pb, p, q) && Complete(pb, p)
    ensures q == p
  {
    if |p| < |q| {
      ExtendsStep(pb, p, q);
    }
  }

  /** The candidates that extend `p`. */
  ghost function Below(pb: Problem, p: seq<nat>): iset<seq<nat>>
  {
    iset q | Extends(pb, p, q)
  }

  /** The candidates that extend `p` with a next stop at position `i` or later. */
  ghost function Subtrees(pb: Problem, p: seq<nat>, i: nat): iset<seq<nat>>
  {
    iset q | InSubtrees(pb, p, i, q)
  }

  ghost predicate AllCandidates(pb: Problem, s: iset<seq<nat>>)
  {
    forall q :: q in s ==> Candidate(pb, q)
  }

  /**
   * Searching the candidates `s` from best-so-far `best` left `r`: `r` is recorded correctly;
   * it is empty only when both `best` and `s` are; it is `best` or a strictly shorter member of
   * `s`; it is no longer than any member of `s`; and a member of `s` as short as `r` is `r`
   * itself or comes later in search order, unless `r` was kept from before.
   */
  ghost predicate Summary(pb: Problem, s: iset<seq<nat>>, best: Option<Found>, r: Option<Found>)
    requires AllCandidates(pb, s)
  {
    && Consistent(pb, r)
    && (r.None? <==> best.None? && forall q :: q !in s)
    && (r.Some? && best.Some? ==> r.value.dist <= best.value.dist)
    && (r == best || (r.Some? && r.value.path in s && (best.Some? ==> r.value.dist < best.value.dist)))
    && (forall q :: q in s ==> r.Some? && r.value.dist <= PathDist(pb, q))
    && (forall q :: q in s && r.Some? && PathDist(pb, q) == r.value.dist ==>
          r == best || q == r.value.path || Before(r.value.path, q))
  }

  /** Searching `s1` and then `s2`, whose members all come later, searches their union. */
  lemma Combine(pb: Problem, s: iset<seq<nat>>, s1: iset<seq<nat>>, s2: iset<seq<nat>>,
                best: Option<Found>, b1: Option<Found>, r: Option<Found>)
    requires AllCandidates(pb, s) && AllCandidates(pb, s1) && AllCandidates(pb, s2)
    requires forall q :: q in s <==> q in s1 || q in s2
    requires forall a, b :: a in s1 && b in s2 ==> Before(a, b)
    requires Summary(pb, s1, best, b1) && Summary(pb, s2, b1, r)
    ensures Summary(pb, s, best, r)
  {
    forall q | q in s && r.Some? && PathDist(pb, q) == r.value.dist
      ensures r == best || q == r.value.path || Before(r.value.path, q)
    {
      if q in s1 {
        assert r == b1;
      } else if r == b1 && b1 != best {
        assert Before(b1.value.path, q);
      }
    }
  }

  lemma BelowIncomplete(pb: Problem, p: seq<nat>)
    requires ValidPath(pb, p) && !Complete(pb, p)
    ensures Below(pb, p) == Subtrees(pb, p, 0)
  {
    forall q | Extends(pb, p, q) ensures |p| < |q| {
      assert q[..|q|] == q;
    }
  }

  lemma BelowComplete(pb: Problem, p: seq<nat>)
    requires Candidate(pb, p)
    ensures Below(pb, p) == iset{p}
  {
    assert p[..|p|] == p;
    forall q | Extends(pb, p, q) ensures q == p {
      ExtendsComplete(pb, p, q);
    }
  }

  /** The candidates from position `i` on: those through stop `i`, then those after it. */
  lemma SubtreesSplit(pb: Problem, p: seq<nat>, i: nat)
    requires i < |pb.stops|
    ensures forall q :: q in Subtrees(pb, p, i) <==> q in Below(pb, p + [i]) || q in Subtrees(pb, p, i + 1)
    ensures forall a, b :: a in Below(pb, p + [i]) && b in Subtrees(pb, p, i + 1) ==> Before(a, b)
  {
    forall q | InSubtrees(pb, p, i, q) && q[|p|] == i ensures Extends(pb, p + [i], q) {
      ExtendsStep(pb, p, q);
    }
    forall q | Extends(pb, p + [i], q) ensures InSubtrees(pb, p, i, q) && q[|p|] == i {
      assert q[..|p|] == q[..|p| + 1][..|p|];
    }
    forall a, b | a in Below(pb, p + [i]) && b in Subtrees(pb, p, i + 1) ensures Before(a, b) {
      assert a[..|p|] == a[..|p| + 1][..|p|];
      assert a[..|p|] == p == b[..|p|];
    }
  }

  lemma SubtreesSkip(pb: Problem, p: seq<nat>, i: nat)
    requires ValidPath(pb, p) && i < |pb.stops| && !Admissible(pb, p, i)
    ensures Subtrees(pb, p, i) == Subtrees(pb, p, i + 1)
  {
    forall q | InSubtrees(pb, p, i, q) ensures i + 1 <= q[|p|] {
      ExtendsStep(pb, p, q);
    }
  }

  lemma {:induction false} VisitSpec(pb: Problem, p: seq<nat>, best: Option<Found>)
    requires Reachable(pb, p) && Consistent(pb, best)
    ensures AllCandidates(pb, Below(pb, p))
    ensures Summary(pb, Below(pb, p), best, Visit(pb, p, best))
    decreases Unvisited(|pb.stops|, p), 1
  {
    if Complete(pb, p) {
      BelowComplete(pb, p);
    } else {
      BelowIncomplete(pb, p);
      ChildrenSpec(pb, p, 0, best);
    }
  }

  lemma {:induction false} ChildrenSpec(pb: Problem, p: seq<nat>, i: nat, best: Option<Found>)
    requires Reachable(pb, p) && !Complete(pb, p) && i <= |pb.stops| && Consistent(pb, best)
    ensures AllCandidates(pb, Subtrees(pb, p, i))
    ensures Summary(pb, Subtrees(pb, p, i), best, Children(pb, p, i, best))
    decreases Unvisited(|pb.stops|, p), 0, |pb.stops| - i
  {
    var n := |pb.stops|;
    if i == n {
      assert forall q :: q !in Subtrees(pb, p, i);
    } else if Admissible(pb, p, i) {
      UnvisitedShrinks(n, p, i);
      ReachableStep(pb, p, i);
      var b1 := Visit(pb, p + [i], best);
      VisitSpec(pb, p + [i], best);
      ChildrenSpec(pb, p, i + 1, b1);
      SubtreesSplit(pb, p, i);
      Combine(pb, Subtrees(pb, p, i), Below(pb, p + [i]), Subtrees(pb, p, i + 1), best, b1, Children(pb, p, i + 1, b1));
    } else {
      SubtreesSkip(pb, p, i);
      ChildrenSpec(pb, p, i + 1, best);
    }
  }

  // ---------------------------------------------------------------------------------------
  // The search's guarantees

  /** The search records nothing exactly when no complete feasible ordering exists. */
  lemma SearchFindsCandidate(pb: Problem)
    ensures Search(pb).None? <==> forall q :: !Candidate(pb, q)
    ensures Search(pb).Some? ==> Candidate(pb, Search(pb).value.path)
    ensures Search(pb).Some? ==> Search(pb).value.dist == PathDist(pb, Search(pb).value.path)
  {
    VisitSpec(pb, [], None);
    forall q ensures q in Below(pb, []) <==> Candidate(pb, q) {
      assert q[..0] == [];
    }
  }

  /**
   * The recorded route is no longer than any complete feasible ordering, and among the
   * shortest ones it is the first the search reaches.
   */
  lemma SearchIsOptimal(pb: Problem, q: seq<nat>)
    requires Candidate(pb, q)
    ensures Search(pb).Some?
    ensures Search(pb).value.dist <= PathDist(pb, q)
    ensures PathDist(pb, q) == Search(pb).value.dist ==> q == Search(pb).value.path || Before(Search(pb).value.path, q)
  {
    VisitSpec(pb, [], None);
    assert q[..0] == [];
    assert q in Below(pb, []);
  }

  /** A recordable route has distinct stops, passes the type rule, fits and is complete. */
  lemma CandidateFeasible(pb: Problem, q: seq<nat>)
    requires Candidate(pb, q)
    ensures NoDuplicates(q)
    ensures forall k :: 0 <= k < |q| ==> pb.stops[q[k]].accepted
    ensures q != [] ==> Load(pb, q) <= pb.capacity
    ensures (forall i :: 0 <= i < |pb.stops| ==> i in q) || Load(pb, q) >= pb.capacity * 0.9
  {
    if q != [] {
      var k := |q| - 1;
      assert !Complete(pb, q[..k]) && Admissible(pb, q[..k], q[k]);
    }
  }

  /** The stop locations along `q`. */
  ghost function Locs(pb: Problem, q: seq<nat>): (ls: seq<Point>)
    requires InRange(q, |pb.stops|)
    ensures |ls| == |q|
  {
    seq(|q|, k requires 0 <= k < |q| => pb.stops[q[k]].loc)
  }

  /** The leg from the start point to the first stop, if both exist. */
  ghost function FirstLeg(pb: Problem, q: seq<nat>): real
    requires InRange(q, |pb.stops|)
  {
    if q == [] then 0.0 else Leg(pb, [], q[0])
  }

  /** The accumulated distance is the start leg plus the consecutive distances along the route. */
  lemma {:induction false} PathDistSplit(pb: Problem, q: seq<nat>)
    requires InRange(q, |pb.stops|)
    ensures PathDist(pb, q) == FirstLeg(pb, q) + PathLength(Locs(pb, q), pb.sqrt)
    decreases |q|
  {
    if |q| > 1 {
      var f := q[..|q| - 1];
      PathDistSplit(pb, f);
      assert Locs(pb, q)[..|q| - 1] == Locs(pb, f);
      assert f[0] == q[0];
    }
  }
}
