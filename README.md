# Store route planner

A model of the route-planning core of a store navigator. The store is a
weighted graph of sections and aisle junctions. Every connection is
inserted in both directions. A route starts at "Entrance", visits every
item of a shopping list and ends at "Billing Counter". The repository has
three planners:

- `akash.py` searches every ordering of the list exactly. It skips
  orderings with an unreachable leg and raises `ValueError` when none is
  left.
- `finalmodified.py` picks each next stop greedily: the nearest item that
  is still reachable.
- `finalcode.py` runs the exact search at module level on a fixed
  five-item list. It does not handle unreachable pairs, so the first
  `NetworkXNoPath` ends the script.

All three turn the chosen stop ordering into a node-by-node path. They
join the shortest path of each leg minus its last node, then append the
last stop. The two app versions also keep an "edges displayed" counter,
stepped by the Show Next Edge and Show Previous Edge buttons and set by
Show Entire Graph. `akash.py` also parses the comma-separated
shopping-list text box.

**Modules:**

- `StoreGraph` (`store_graph.dfy`) covers the graph, edge insertion, walks and their weight. It also holds `ConsistentOracle`, the contract the planners need from `nx.shortest_path_length` and `nx.shortest_path`.
- `Orderings` (`orderings.dfy`) is `itertools.permutations`, in its order.
- `Routes` (`routes.dfy`) covers the shared pieces:
  - the candidate framing;
  - the route cost as a sum of leg lengths;
  - the "first strict minimum" rule;
  - path stitching and the facts about it.
- `ExactPlanner` (`exact_planner.dfy`) is `calculate_optimal_path` of `akash.py`.
- `GreedyPlanner` (`greedy_planner.dfy`) is `calculate_optimal_path` of `finalmodified.py`, plus a corrected variant (see Findings).
- `FixedListPlanner` (`fixed_list_planner.dfy`) is the script of `finalcode.py` and its `subgraph_edges` list.
- `ShoppingInput` (`shopping_input.dfy`) is the `split(",")` / `strip()` parser.
- `DisplayCounter` (`display_counter.dfy`) models the counter state machines as two classes.

**How the oracles and loops are modelled:**

- The shortest-path queries are parameters:
  - `dist(a, b)` is `nx.shortest_path_length`;
  - `sp(a, b)` is `nx.shortest_path`;
  - `None` stands for `NetworkXNoPath`.
- Where a property needs the graph, it assumes `ConsistentOracle(g, dist, sp)`. That predicate says:
  - both queries succeed for the same pairs;
  - a returned path starts at the source, ends at the target and follows edges of `g`;
  - the path's summed weight is the returned length.
- The loops of the source are methods. Each is proved equal to a recursive specification function, and the properties are lemmas about those functions.

## Model

| member | source | states |
|---|---|---|
| StoreGraph.BuildGraph | akash.py:189-191 | The node set is the listed nodes plus every edge endpoint. Each `(u, v, w)` triple puts both `(u, v)` and `(v, u)` in the graph with weight `w`, unless a later triple overwrites the same pair. No other pairs are present. The graph is symmetric and its edges join nodes of the graph. The same loop appears at finalmodified.py:228-230 and finalcode.py:100-102. |
| StoreGraph.JoinWalks | akash.py:40-47 | Joining two walks that meet, keeping the shared node once, gives a walk between their outer ends. Its weight is the sum of the two weights. |
| StoreGraph.ConsistentOracle | akash.py:27-43 | Definition of what the planners rely on from networkx. `shortest_path_length` and `shortest_path` succeed for the same pairs. A returned path runs from source to target along edges of the graph, and its weight is the returned length. StoreGraph.OracleLeg, Routes.ExpandIsRoute and the route lemmas of each planner assume it. |
| StoreGraph.OracleLeg | akash.py:43 | Under a consistent oracle, every leg with a length has a shortest path between its ends, and that path weighs the length. |
| Orderings.Permutations | akash.py:13 | Definition of `itertools.permutations`, also used at finalcode.py:111: the orderings in its order, first element by position. Its properties are Orderings.PermutationsSound, Orderings.PermutationsComplete and Orderings.PermutationsCount. |
| Orderings.PermutationsSound | akash.py:13 | Every ordering produced rearranges the list (same multiset). |
| Orderings.PermutationsComplete | akash.py:13 | Every rearrangement of the list is produced. |
| Orderings.PermutationsCount | akash.py:13 | A list of n entries has n! orderings, duplicates counted by position. |
| Routes.RouteCost | akash.py:24-29 | Definition of `path_length`: the leg lengths of a candidate summed left to right, and None once a leg raises `NetworkXNoPath`. Its properties are Routes.RouteCostDefinedIff, Routes.RouteCostAppend and ExactPlanner.PathLength. |
| Routes.RouteCostDefinedIff | akash.py:24-29 | A candidate has a cost exactly when every consecutive pair is reachable. Otherwise it is skipped. |
| Routes.RouteCostAppend | akash.py:26-27 | Adding a reachable leg adds its length to the cost. |
| Routes.FirstMin | akash.py:32-34 | The strict-`<` selection from infinity, also used at finalmodified.py:27-29. A chosen index is in range and its entry has a cost. |
| Routes.FirstMinIsFirstMinimum | akash.py:32-34 | The selection is None exactly when no candidate has a cost. Otherwise the chosen candidate has a cost, costs no more than every costed candidate, and costs strictly less than every costed candidate before it. |
| Routes.FirstMinStep | akash.py:32-34 | One more candidate replaces the current choice exactly when it has a cost and there is no choice yet or it is strictly cheaper. |
| Routes.Segments | akash.py:40-45 | Definition of the joined segments: each leg's shortest path without its last node, nothing for a leg with no path. Routes.ExpandStops ties the loop to it, and Routes.ExpandSplit splits it at a stop. |
| Routes.Expand | akash.py:40-47 | Definition of `optimal_path`: the joined segments, then the last stop. Its properties are Routes.ExpandEndsAtLastStop, Routes.ExpandIsRoute, Routes.ExpandVisitsStops and Routes.ExpandContainsStops. |
| Routes.ExpandStops | akash.py:40-47 | The stitching loop builds exactly the joined segments followed by the last stop. A leg with no path adds nothing. |
| Routes.ExpandEndsAtLastStop | akash.py:47 | The stitched path is non-empty and ends at the last stop, whatever the oracle returns. |
| Routes.ExpandIsRoute | akash.py:40-47 | When every leg is reachable, the stitched path is a walk from the first stop to the last. Its weight equals the ordering's cost. |
| Routes.ExpandSplit | akash.py:40-47 | Splitting the stop ordering at any stop splits the stitched path there. |
| Routes.StopAtPosition | finalcode.py:132-136 | When every leg is reachable, each stop occurs in the stitched path at its computed position. |
| Routes.StopPositionMonotone | finalcode.py:132-136 | Those positions never decrease along the ordering. |
| Routes.ExpandVisitsStops | finalcode.py:132-136 | When every leg is reachable under a consistent oracle, the stitched path passes every stop in the ordering's order. |
| Routes.ExpandContainsStops | akash.py:40-47 | When every leg is reachable under a consistent oracle, every stop is on the stitched path. |
| ExactPlanner.ExactPlan | akash.py:8-49 | Definition of the result of `calculate_optimal_path`: `ValueError` when ExactPlanner.ExactStops selects nothing, otherwise the stitched selection. ExactPlanner.CalculateOptimalPath ties the code to it, and ExactPlanner.ExactPlanRoute states its route property. |
| ExactPlanner.ExactStops | akash.py:16-37 | The selected `min_path`. When there is one, it has at least two stops, starts at Entrance and ends at Billing Counter. |
| ExactPlanner.RouteCostPrefixUndefined | akash.py:25-29 | Once a prefix of the candidate has an unreachable leg, the whole candidate is skipped. |
| ExactPlanner.PathLength | akash.py:24-29 | The inner loop returns the candidate's cost, or None at the first unreachable leg. |
| ExactPlanner.SelectRoute | akash.py:16-37 | The permutation loop returns the first strict minimum over all candidates, or None when none has a cost. |
| ExactPlanner.CalculateOptimalPath | akash.py:8-49 | The planner raises `ValueError` when no candidate survives. Otherwise it returns the stitched path of the selected candidate. |
| ExactPlanner.ExactStopsNoneIff | akash.py:36-37 | No route is selected exactly when every rearrangement of the list has an unreachable leg. |
| ExactPlanner.ExactStopsOptimal | akash.py:19-34 | The selected ordering is Entrance, a rearrangement of the list, then Billing Counter. Every leg is reachable. It costs no more than any reachable rearrangement, and strictly less than every costed candidate tried before it. |
| ExactPlanner.ExactEmptyList | akash.py:13-21 | With an empty list the only candidate is Entrance, Billing Counter. The result is that leg's shortest path, or an error when the leg is unreachable. |
| ExactPlanner.ExactPlanRoute | akash.py:8-49 | Under a consistent oracle, a returned path is a walk from Entrance to Billing Counter through every shopping item. Its weight is at most the cost of every reachable ordering. |
| GreedyPlanner.Nearest | finalmodified.py:22-31 | Definition of the inner `for` loop's choice: the first strict minimum of the distances from the current node to the remaining items. Its properties are GreedyPlanner.NearestIsNearest, GreedyPlanner.NearestMinimal and GreedyPlanner.NearestTie, and GreedyPlanner.FindNearest ties the loop to it. |
| GreedyPlanner.NearestIsNearest | finalmodified.py:22-31 | No choice is made exactly when no remaining item is reachable. A chosen item is reachable, at minimal distance among the reachable ones, and the first one at that distance. |
| GreedyPlanner.NearestMinimal | finalmodified.py:27-29 | The chosen item is no farther than any reachable remaining item. |
| GreedyPlanner.NearestTie | finalmodified.py:27-29 | An item at the same distance as the chosen one does not come before it. |
| GreedyPlanner.FindNearest | finalmodified.py:22-31 | The inner loop returns the nearest reachable item and its distance, or nothing when none is reachable. |
| GreedyPlanner.RemoveFirst | finalmodified.py:38 | `list.remove` deletes exactly one occurrence: one item fewer, and the multiset loses one `x`. |
| GreedyPlanner.IndexOf | finalmodified.py:38 | The position of the first `x`: it holds `x` and no earlier position does. |
| GreedyPlanner.RemoveFirstCutsFirst | finalmodified.py:38 | `list.remove` cuts out exactly the first occurrence and keeps the other items in their order, the order later tie-breaks (finalmodified.py:27) depend on. |
| GreedyPlanner.GreedyOrder | finalmodified.py:19-39 | Definition of the items the while loop appends: repeatedly the nearest remaining item, None when nothing remaining is reachable. Its properties are GreedyPlanner.GreedyOrderArrangement, GreedyPlanner.GreedyOrderReachable, GreedyPlanner.GreedyFirstChoice and GreedyPlanner.GreedyOrderDefined. |
| GreedyPlanner.GreedyStops | finalmodified.py:16-41 | Definition of `path`: Entrance, the greedy ordering, then Billing Counter, appended unchecked. GreedyPlanner.GreedyStopOrder ties the loop to it, and GreedyPlanner.GreedyStopsShape states its shape. |
| GreedyPlanner.GreedyPlan | finalmodified.py:8-52 | Definition of the result of `calculate_optimal_path`: `ValueError` when GreedyPlanner.GreedyStops is None, otherwise the stitched stops. GreedyPlanner.CalculateOptimalPath ties the code to it, and GreedyPlanner.GreedyConnectedRoute and GreedyPlanner.GreedySkipsUnreachableCounter state its behaviour. |
| GreedyPlanner.GreedyStopOrder | finalmodified.py:16-41 | The while loop returns the greedy ordering. On success, `total_length` is the cost of the ordering without its Billing Counter leg. |
| GreedyPlanner.GreedyStep | finalmodified.py:36-39 | One iteration appends the chosen item and adds its distance to the running length. |
| GreedyPlanner.CalculateOptimalPath | finalmodified.py:8-52 | The planner raises `ValueError` when some step finds nothing reachable. Otherwise it returns the stitched greedy ordering. |
| GreedyPlanner.GreedyOrderArrangement | finalmodified.py:19-41 | The greedy ordering rearranges the shopping list. Each iteration removes one entry. |
| GreedyPlanner.GreedyOrderReachable | finalmodified.py:24-39 | Every leg between consecutive greedy choices is reachable. |
| GreedyPlanner.GreedyFirstChoice | finalmodified.py:22-36 | The first stop after the current node is the nearest reachable remaining item. |
| GreedyPlanner.GreedyStopsShape | finalmodified.py:16-41 | The ordering is Entrance, a rearrangement of the list, then Billing Counter. |
| GreedyPlanner.GreedyOrderDefined | finalmodified.py:21-34 | When every pair in the pool is reachable, the greedy loop never raises. |
| GreedyPlanner.GreedySucceedsWhenConnected | finalmodified.py:21-34 | When Entrance and all items are mutually reachable, a stop ordering is produced. |
| GreedyPlanner.CheckedGreedyStops | finalmodified.py:41 | Definition of the corrected ordering: the greedy stops, refused when the last item cannot reach Billing Counter. GreedyPlanner.CheckedGreedyReachable states that all its legs are reachable. |
| GreedyPlanner.CheckedGreedyPlan | finalmodified.py:8-52 | Definition of the corrected planner's result: `ValueError` when GreedyPlanner.CheckedGreedyStops is None, otherwise the stitched stops. Its properties are GreedyPlanner.CheckedGreedyPlanRoute and GreedyPlanner.GreedyNeverBeatsExact. |
| GreedyPlanner.CheckedGreedyReachable | finalmodified.py:41 | In the corrected planner every leg, including the one into Billing Counter, is reachable, so the ordering has a cost. |
| GreedyPlanner.CheckedGreedyPlanRoute | finalmodified.py:8-52 | Under a consistent oracle, the corrected greedy result is a walk from Entrance to Billing Counter through every item. Its weight is the ordering's cost. |
| GreedyPlanner.GreedyNeverBeatsExact | finalmodified.py:8-52 | Whenever the corrected greedy planner succeeds, the exact planner succeeds too, at no greater cost. |
| GreedyPlanner.GreedyAgreesWhenCounterReachable | finalmodified.py:41-50 | When the last greedy stop reaches Billing Counter, the as-written and corrected planners return the same result. |
| GreedyPlanner.GreedyConnectedRoute | finalmodified.py:8-52 | When Entrance, every item and Billing Counter are mutually reachable under a consistent oracle, the planner as written succeeds. Its path is a walk from Entrance to Billing Counter through every item, weighing the greedy ordering's cost. |
| GreedyPlanner.GreedySkipsUnreachableCounter | finalmodified.py:41-50 | Take an empty list and Billing Counter unreachable, with a consistent oracle. The as-written planner returns `["Billing Counter"]`, while the exact and corrected planners fail. |
| FixedListPlanner.FixedSearch | finalcode.py:113-129 | The search's outcome. A finished search has at least two stops, starting at Entrance and ending at Billing Counter, so the stitching at finalcode.py:132-136 always has a last stop. |
| FixedListPlanner.SearchAll | finalcode.py:113-129 | The module-level search returns the first strict minimum over all candidates. It stops with an error at the first unreachable leg. |
| FixedListPlanner.SearchAborts | finalcode.py:123-124 | One unreachable leg in any candidate ends the script. |
| FixedListPlanner.SearchCompletes | finalcode.py:117-129 | When every candidate has a cost, the search returns the exact planner's choice. |
| FixedListPlanner.FixedStitch | finalcode.py:132-136 | Definition of the stitching without a `try`: the stitched path when every leg has a path, otherwise the script stops with `NetworkXNoPath`. FixedListPlanner.StitchAll ties the loop to it, and FixedListPlanner.SearchThenStitch shows that a finished search never fails there. |
| FixedListPlanner.StitchAll | finalcode.py:132-136 | Stitching joins each leg's shortest path minus its last node and appends the last stop. It stops with an error when a leg has no path. |
| FixedListPlanner.FixedPlan | finalcode.py:113-136 | Definition of the script's outcome: the search's error, or the stitching of its choice. FixedListPlanner.RunScript ties the code to it, and FixedListPlanner.FixedPlanRoute and FixedListPlanner.FixedListRoute state its route properties. |
| FixedListPlanner.RunScript | finalcode.py:105-136 | The script plans for the fixed five-item list: the search, then stitching. |
| FixedListPlanner.PathEdges | finalcode.py:139 | `subgraph_edges`: empty for an empty path, otherwise one entry fewer than the path, entry i being nodes i and i+1. |
| FixedListPlanner.PathEdgesOfWalk | finalcode.py:139 | `subgraph_edges` has one entry fewer than the path. Entry i is the pair of nodes i and i+1, and each pair is an edge of the graph. |
| FixedListPlanner.FixedSearchSucceedsIff | finalcode.py:117-129 | The search finishes exactly when every rearrangement has a cost, and it then picks what the exact planner picks. |
| FixedListPlanner.ConnectedSearchSucceeds | finalcode.py:121-124 | When all anchors and items are mutually reachable, the search finishes. |
| FixedListPlanner.SearchThenStitch | finalcode.py:132-136 | Under a consistent oracle, a finished search never fails at stitching, and the script's path equals the exact planner's. |
| FixedListPlanner.FixedListCandidates | finalcode.py:105-111 | The fixed list gives 120 candidates. |
| FixedListPlanner.FixedPlanRoute | finalcode.py:108-139 | When the search finishes:<br>• the path is a walk from Entrance to Billing Counter;<br>• the stops are Entrance, a rearrangement of the list, then Billing Counter;<br>• every stop is visited in order;<br>• its weight is at most every candidate's cost;<br>• `subgraph_edges` lists its consecutive pairs, all edges of the graph. |
| FixedListPlanner.FixedListRoute | finalcode.py:105-136 | When the anchors and five items are mutually reachable, the script finishes with a walk from Entrance to Billing Counter. |
| ShoppingInput.Split | akash.py:115 | `split(",")` returns at least one piece. |
| ShoppingInput.SplitCount | akash.py:115 | It returns one piece per comma plus one. |
| ShoppingInput.SplitWithoutSeparator | akash.py:115 | Text without a comma is one piece. |
| ShoppingInput.SplitPiecesFree | akash.py:115 | No piece contains a comma. |
| ShoppingInput.SplitJoin | akash.py:115 | Joining the pieces with commas gives back the input. |
| ShoppingInput.Strip | akash.py:115 | `str.strip` never lengthens the text, and a non-empty result neither starts nor ends with whitespace. |
| ShoppingInput.TrimStartSuffix | akash.py:115 | `lstrip` leaves a suffix that does not start with whitespace, and drops only whitespace. |
| ShoppingInput.TrimEndPrefix | akash.py:115 | `rstrip` leaves a prefix that does not end with whitespace, and drops only whitespace. |
| ShoppingInput.StripInfix | akash.py:115 | `strip` returns the infix left after removing whitespace at both ends. What remains neither starts nor ends with whitespace. |
| ShoppingInput.StripIdempotent | akash.py:115 | Stripping twice equals stripping once. |
| ShoppingInput.StripKeepsOut | akash.py:115 | Stripping introduces no character. |
| ShoppingInput.ParseShoppingList | akash.py:115 | The comprehension has one item per piece of `split(",")`, one per comma plus one, and item i is piece i stripped. |
| ShoppingInput.ParseShoppingListItems | akash.py:115 | The list has one item per comma plus one. Each item is the stripped piece between commas, holds no comma, and has no surrounding whitespace. |
| ShoppingInput.DefaultInput | akash.py:114-115 | The default text "Pasta" gives `["Pasta"]`. |
| ShoppingInput.EmptyInput | akash.py:115 | An empty text box gives one empty item. |
| DisplayCounter.InRange | akash.py:253-268 | Definition of the counter invariant: a count from 0 to `len - 1`, or, for the empty initial path, the starting 0 or the -1 that Show Entire Graph stores. DisplayCounter.NextCount, DisplayCounter.PreviousCount and the session classes' Valid predicates keep it. |
| DisplayCounter.NextCount | akash.py:259-262 | Show Next Edge adds one exactly when the count is below `len - 1`, and keeps the count in range. |
| DisplayCounter.PreviousCount | akash.py:265-268 | Show Previous Edge subtracts one exactly when the count is above 0, and keeps the count in range. |
| DisplayCounter.NextThenPrevious | akash.py:259-268 | Previous undoes a Next that moved. |
| DisplayCounter.PreviousThenNext | akash.py:259-268 | Next undoes a Previous that moved. |
| DisplayCounter.NextTimesSaturates | akash.py:259-262 | k presses of Next give `min(n + k, len - 1)`. |
| DisplayCounter.PreviousTimesSaturates | akash.py:265-268 | k presses of Previous give `max(n - k, 0)`. |
| DisplayCounter.StepsReachEnds | akash.py:259-268 | Enough presses reach the whole path, and enough reach zero. |
| DisplayCounter.StepSession.constructor | akash.py:117-123 | The first run starts with count 0, an empty path and the partial view. |
| DisplayCounter.StepSession.Generate | akash.py:126-247 | Generate stores the planner's path, resets the count to 0 and leaves the full view. When the planner raised, nothing changes. |
| DisplayCounter.StepSession.ShowEntireGraph | akash.py:253-256 | Show Entire Graph turns on the full view and sets the count to `len - 1`. |
| DisplayCounter.StepSession.ShowNextEdge | akash.py:259-262 | The count becomes NextCount of the old count and nothing else changes. The invariant is kept. |
| DisplayCounter.StepSession.ShowPreviousEdge | akash.py:265-268 | The count becomes PreviousCount of the old count and nothing else changes. The invariant is kept. |
| DisplayCounter.ResetView | finalmodified.py:288-290 | After Generate both counts are 0 (in range for any path) and the view is partial. |
| DisplayCounter.ToggleView | finalmodified.py:295-304 | The toggle flips the view. Switching it on saves the count and shows `len - 1`. Switching it off brings back the saved count. Both counts stay in range. |
| DisplayCounter.NextView | finalmodified.py:307-310 | Next changes only the shown count, in either view. |
| DisplayCounter.PreviousView | finalmodified.py:313-316 | Previous changes only the shown count, in either view. |
| DisplayCounter.ToggleTwiceRestores | finalmodified.py:295-304 | Switching the full view on and then off restores the count. |
| DisplayCounter.ToggleTwiceShowsAll | finalmodified.py:295-304 | Switching it off and on again shows `len - 1` edges, whatever was stepped to meanwhile. |
| DisplayCounter.StepsKeepSaved | finalmodified.py:307-316 | Any sequence of Next/Previous presses keeps the saved count, the view flag and the bounds. |
| DisplayCounter.ToggleRestoresAfterSteps | finalmodified.py:295-316 | However the edges were stepped through in the full view, switching it off returns to the count it was switched on from. |
| DisplayCounter.ToggleSession.constructor | finalmodified.py:162-168 | The first run starts with both counts 0, an empty path and the partial view. |
| DisplayCounter.ToggleSession.Generate | finalmodified.py:170-292 | Generate stores the planner's path and resets the counter state. When the planner raised, nothing changes. |
| DisplayCounter.ToggleSession.ToggleEntireGraph | finalmodified.py:295-304 | The new counter state is ToggleView of the old one, and the invariant is kept. |
| DisplayCounter.ToggleSession.ShowNextEdge | finalmodified.py:307-310 | The new counter state is NextView of the old one, and the invariant is kept. |
| DisplayCounter.ToggleSession.ShowPreviousEdge | finalmodified.py:313-316 | The new counter state is PreviousView of the old one, and the invariant is kept. |

## Left out

- Streamlit widgets, `st.session_state` storage, every matplotlib drawing and the `draw_graph_with_edges` renderer are user interface. Only the counter arithmetic they drive is modelled.
- The `pos` layout dictionaries are left out: they are float coordinates used only for drawing.
- The hard-coded node and edge lists are configuration data. `BuildGraph` takes them as parameters.
- finalmodified.py's shopping list comes from a multiselect of graph nodes, so it has no parser.
- Each rerun of the page is not modelled: the four button handlers are separate methods of one session object.
- The internals of networkx are not modelled: `shortest_path_length` and `shortest_path` are parameters.
- ExactPlanner.ExactStopsOptimal: minimality is relative to the lengths `dist` returns. That these are true shortest-path lengths in the graph is not assumed, because no planner property depends on it.
- ExactPlanner.ExactPlanRoute: the same applies. The bound compares the path's weight with candidate costs under `dist`, not with every walk of the graph.
- `NodeNotFound` is not modelled: the model folds it into `None`. Entrance and Billing Counter are nodes of all three hard-coded graphs, so only a shopping item can be unknown. An item is first queried as the target of the weighted `shortest_path_length` (akash.py:27, finalmodified.py:26, finalcode.py:124), which reports `NetworkXNoPath` for an unknown target, so the model's error paths match on those graphs. `BuildGraph` takes its node and edge lists as parameters, so the model also admits a graph without an anchor. There the source raises `NodeNotFound`, uncaught by its `except nx.NetworkXNoPath` clauses (akash.py:28, finalmodified.py:30 and 48), while the model treats the query as unreachable. For instance, the greedy planner on an empty list returns `Success(["Billing Counter"])` where finalmodified.py:47 raises.
- Weights are exact `real` numbers, so float rounding in the sums and in the tie-breaking `<` is not modelled.
- `float('inf')` is modelled as `None`.
- The unused `nodes_to_visit`, `min_path` and `min_path_length` of finalmodified.py are not modelled.
- The `G.edge_subgraph(...).copy()` at finalcode.py:140 is left out: it only feeds the drawing.
- finalcode.py does not handle unreachable pairs. The model does not require them away; it returns `Failure(NoPathRaised)` where the script would stop with the exception. FixedListPlanner.FixedListRoute states the connected case.
- On ties the greedy planner takes the first nearest item in list order (strict `<`, finalmodified.py:27); the model follows that order.

## Findings

| source | as written | input that shows it | evidently intended | confidence | as-written member | corrected member |
|---|---|---|---|---|---|---|
| finalmodified.py:41-50 | Billing Counter is appended to the greedy ordering without checking that it is reachable from the last item. The stitching loop then silently drops that leg. | An empty shopping list on a graph where Billing Counter is unreachable from Entrance returns `["Billing Counter"]`. That path does not start at Entrance and is not a route. | Raise `ValueError` as for any other unreachable stop. The exact planner does this for the same input. | not executed | GreedyPlanner.GreedySkipsUnreachableCounter | GreedyPlanner.CheckedGreedyPlanRoute |
