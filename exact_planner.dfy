/** akash.py `calculate_optimal_path`: try every ordering of the shopping
    list between Entrance and Billing Counter, skip the orderings with an
    unreachable leg, keep the first cheapest, and expand it into a path. */
module ExactPlanner {
  import opened Wrappers
  import opened StoreGraph
  import opened Orderings
  import opened Routes

  /** The cost of each candidate, in the order the permutations are tried. */
  function CandidateCosts(dist: (Node, Node) -> Option<real>, perms: seq<seq<Node>>): seq<Option<real>> {
    seq(|perms|, k requires 0 <= k < |perms| => RouteCost(dist, Candidate(perms[k])))
  }

  /** The stop ordering `min_path` that the search selects, or `None` when
      every candidate has an unreachable leg. */
  function ExactStops(dist: (Node, Node) -> Option<real>, shopping: seq<Node>): (r: Option<seq<Node>>)
    ensures r.Some? ==> |r.value| >= 2 && r.value[0] == Entrance && r.value[|r.value| - 1] == BillingCounter
  {
    var perms := Permutations(shopping);
    match FirstMin(CandidateCosts(dist, perms))
    case None => None
    case Some(k) => Some(Candidate(perms[k]))
  }

  /** What `calculate_optimal_path` returns, or the ValueError it raises. */
  function ExactPlan(dist: (Node, Node) -> Option<real>, sp: (Node, Node) -> Option<seq<Node>>, shopping: seq<Node>): Result<seq<Node>, PlanError> {
    match ExactStops(dist, shopping)
    case None => Failure(NoValidRoute)
    case Some(stops) => Success(Expand(sp, stops))
  }

  lemma RouteCostPrefixUndefined(dist: (Node, Node) -> Option<real>, stops: seq<Node>, k: nat)
    requires k <= |stops| && RouteCost(dist, stops[..k]).None?
    ensures RouteCost(dist, stops).None?
  {
    RouteCostDefinedIff(dist, stops[..k]);
    RouteCostDefinedIff(dist, stops);
    var i :| 0 <= i < k - 1 && dist(stops[..k][i], stops[..k][i + 1]).None?;
    assert stops[..k][i] == stops[i] && stops[..k][i + 1] == stops[i + 1];
  }

  /** The `try` block of akash.py:24-29: add up the leg lengths, giving up at
      the first leg with no path. */
  method PathLength(dist: (Node, Node) -> Option<real>, fullPath: seq<Node>) returns (pathLength: Option<real>)
    requires |fullPath| >= 1
    ensures pathLength == RouteCost(dist, fullPath)
  {
    var total := 0.0;
    var i := 0;
    while i < |fullPath| - 1
      invariant 0 <= i <= |fullPath| - 1
      invariant RouteCost(dist, fullPath[..i + 1]) == Some(total)
    {
      assert fullPath[..i + 2][..i + 1] == fullPath[..i + 1];
      match dist(fullPath[i], fullPath[i + 1]) {
        case None =>
          RouteCostPrefixUndefined(dist, fullPath, i + 2);
          return None;
        case Some(d) =>
          total := total + d;
      }
      i := i + 1;
    }
    assert fullPath[..|fullPath|] == fullPath;
    pathLength := Some(total);
  }

  /** The search loop of akash.py:16-34. `None` for `min_path_length`
      stands for `float('inf')`. */
  method SelectRoute(dist: (Node, Node) -> Option<real>, shopping: seq<Node>) returns (minPath: Option<seq<Node>>)
    ensures minPath == ExactStops(dist, shopping)
  {
    var perms := Permutations(shopping);
    ghost var costs := CandidateCosts(dist, perms);
    minPath := None;
    var minPathLength: Option<real> := None;
    for i := 0 to |perms|
      invariant FirstMin(costs[..i]).None? ==> minPath.None? && minPathLength.None?
      invariant FirstMin(costs[..i]).Some? ==>
                  var k := FirstMin(costs[..i]).value;
                  k < |perms| && minPath == Some(Candidate(perms[k])) && minPathLength == costs[k]
    {
      var fullPath := Candidate(perms[i]);
      var pathLength := PathLength(dist, fullPath);
      assert costs[..i + 1][..i] == costs[..i];
      if pathLength.Some? && (minPathLength.None? || pathLength.value < minPathLength.value) {
        minPathLength := pathLength;
        minPath := Some(fullPath);
      }
    }
    assert costs[..|perms|] == costs;
  }

  /** akash.py:8-49 */
  method CalculateOptimalPath(dist: (Node, Node) -> Option<real>, sp: (Node, Node) -> Option<seq<Node>>, shopping: seq<Node>)
    returns (r: Result<seq<Node>, PlanError>)
    ensures r == ExactPlan(dist, sp, shopping)
  {
    var minPath := SelectRoute(dist, shopping);
    if minPath.None? {
      return Failure(NoValidRoute);
    }
    var optimalPath := ExpandStops(sp, minPath.value);
    return Success(optimalPath);
  }

  /** No route is selected exactly when every ordering of the shopping list
      has an unreachable leg. */
  lemma ExactStopsNoneIff(dist: (Node, Node) -> Option<real>, shopping: seq<Node>)
    ensures ExactStops(dist, shopping).None? <==>
              forall perm | multiset(perm) == multiset(shopping) :: RouteCost(dist, Candidate(perm)).None?
  {
    var perms := Permutations(shopping);
    var costs := CandidateCosts(dist, perms);
    FirstMinIsFirstMinimum(costs);
    PermutationsSound(shopping);
    if ExactStops(dist, shopping).None? {
      forall perm | multiset(perm) == multiset(shopping) ensures RouteCost(dist, Candidate(perm)).None? {
        PermutationsComplete(shopping, perm);
        var k :| 0 <= k < |perms| && perms[k] == perm;
        assert costs[k].None?;
      }
    } else {
      var k := FirstMin(costs).value;
      assert multiset(perms[k]) == multiset(shopping);
    }
  }

  /** The selected ordering is Entrance, a rearrangement of the shopping list,
      Billing Counter; every leg is reachable; it costs no more than any
      other ordering whose legs are all reachable; and every ordering tried
      before it costs strictly more or is unreachable (the first minimum wins). */
  lemma ExactStopsOptimal(dist: (Node, Node) -> Option<real>, shopping: seq<Node>)
    requires ExactStops(dist, shopping).Some?
    ensures var stops := ExactStops(dist, shopping).value;
      && |stops| == |shopping| + 2
      && stops == Candidate(stops[1..|stops| - 1])
      && multiset(stops[1..|stops| - 1]) == multiset(shopping)
      && RouteCost(dist, stops).Some?
      && (forall perm | multiset(perm) == multiset(shopping) && RouteCost(dist, Candidate(perm)).Some? ::
            RouteCost(dist, stops).value <= RouteCost(dist, Candidate(perm)).value)
      && (exists k | 0 <= k < |Permutations(shopping)| ::
            && stops == Candidate(Permutations(shopping)[k])
            && forall j | 0 <= j < k && RouteCost(dist, Candidate(Permutations(shopping)[j])).Some? ::
                 RouteCost(dist, stops).value < RouteCost(dist, Candidate(Permutations(shopping)[j])).value)
  {
    var perms := Permutations(shopping);
    var costs := CandidateCosts(dist, perms);
    FirstMinIsFirstMinimum(costs);
    PermutationsSound(shopping);
    var k := FirstMin(costs).value;
    var stops := Candidate(perms[k]);
    assert multiset(perms[k]) == multiset(shopping);
    assert |perms[k]| == |multiset(perms[k])| == |shopping|;
    assert stops[1..|stops| - 1] == perms[k];
    forall perm | multiset(perm) == multiset(shopping) && RouteCost(dist, Candidate(perm)).Some?
      ensures RouteCost(dist, stops).value <= RouteCost(dist, Candidate(perm)).value
    {
      PermutationsComplete(shopping, perm);
      var j :| 0 <= j < |perms| && perms[j] == perm;
      assert costs[j] == RouteCost(dist, Candidate(perm));
    }
    assert forall j | 0 <= j < k :: costs[j] == RouteCost(dist, Candidate(perms[j]));
  }

  /** With an empty shopping list the only candidate is Entrance, Billing
      Counter; when that leg has a path the result is that shortest path. */
  lemma ExactEmptyList(g: Graph, dist: (Node, Node) -> Option<real>, sp: (Node, Node) -> Option<seq<Node>>)
    ensures ExactStops(dist, []) == if dist(Entrance, BillingCounter).Some? then Some([Entrance, BillingCounter]) else None
    ensures ConsistentOracle(g, dist, sp) && dist(Entrance, BillingCounter).Some? ==>
              ExactPlan(dist, sp, []) == Success(sp(Entrance, BillingCounter).value)
  {
    var costs := CandidateCosts(dist, Permutations<Node>([]));
    assert Candidate([]) == [Entrance, BillingCounter];
    assert costs == [RouteCost(dist, [Entrance, BillingCounter])];
    assert costs[..0] == [];
    assert [Entrance, BillingCounter][..1] == [Entrance];
    if ConsistentOracle(g, dist, sp) && dist(Entrance, BillingCounter).Some? {
      var p := sp(Entrance, BillingCounter).value;
      assert IsPathBetween(g, Entrance, BillingCounter, p);
      assert ExactStops(dist, []) == Some([Entrance, BillingCounter]);
      assert Segments(sp, [Entrance, BillingCounter]) == DropLast(p);
      assert DropLast(p) + [BillingCounter] == p;
    }
  }

  /** Given a consistent shortest-path oracle, a returned path is a walk of the
      graph from Entrance to Billing Counter that passes every shopping item,
      and its weight is at most the cost of every feasible ordering. */
  lemma ExactPlanRoute(g: Graph, dist: (Node, Node) -> Option<real>, sp: (Node, Node) -> Option<seq<Node>>, shopping: seq<Node>)
    requires ConsistentOracle(g, dist, sp)
    requires ExactPlan(dist, sp, shopping).Success?
    ensures var path := ExactPlan(dist, sp, shopping).value;
      && IsPathBetween(g, Entrance, BillingCounter, path)
      && (forall x | x in shopping :: x in path)
      && (forall perm | multiset(perm) == multiset(shopping) && RouteCost(dist, Candidate(perm)).Some? ::
            WalkWeight(g, path) <= RouteCost(dist, Candidate(perm)).value)
  {
    ExactStopsOptimal(dist, shopping);
    var stops := ExactStops(dist, shopping).value;
    var mid := stops[1..|stops| - 1];
    RouteCostDefinedIff(dist, stops);
    ExpandIsRoute(g, dist, sp, stops);
    ExpandContainsStops(g, dist, sp, stops);
    forall x | x in shopping ensures x in stops {
      assert x in multiset(mid);
      var i :| 0 <= i < |mid| && mid[i] == x;
      assert stops[i + 1] == x;
    }
  }
}
