# Distance-vector routing engine, modelled in Dafny

This project models the route computation in `DistanceVector.java`. The
program builds a symmetric weighted graph of named nodes and numbers the
nodes in sorted order. It then runs a synchronous Bellman-Ford
distance-vector computation over N x N grids:

- `neighborsCost`: the direct link costs, with -1 for "no link";
- `minCost`: the best route (next hop, cost) for every (node, destination)
  pair, or none;
- `distanceTable`: the per-pair distance list, mapping each via-neighbour to
  a cost or `"INF"`.

Each round relaxes every (node, destination, via) triple against the
previous round's best routes only. A round that changes nothing ends the
loop. After topology edits, the old grids are copied into a new index space
and the computation runs again.

Modules, one per component of the source file:

- `Ordering`: `String.compareTo` as the predicate `Less`. It is proved to be
  a strict total order, which both the sort and the tie-break rely on.
- `Topology`: the `Neighbor` record and the `Graph` class. `adj` is a map
  field that `AddNode`, `AddEdge`, `UpdateEdge` and `RemoveEdge` reassign,
  and `Valid()` is kept invariant. It also holds the removal loop, both as
  written and corrected.
- `Indexing`: `getNeighborToIndex`, a sort followed by a dense numbering,
  specified by `StrictlySorted` and `Numbering`.
- `DistanceLists`: the distance list as `map<string, Cost>` and `getMin`.
  `getMin` is a loop over the map in arbitrary order, specified by the
  predicate `IsMin`.
- `DistanceVector`: the algorithm on `array2` grids:
  - `getTables`, `cloneMinCost`, the round loop, `mergeMinCost`;
  - the two computations that `main` runs;
  - the fixed-point lemmas.

   The round is specified by `RelaxedCell`, the distance list one round
   computes for a pair. The loop's result is characterised by `Converged`.
   It is a fixed point: best routes agree with the lists, and a further
   round would store nothing new. At such a fixed point, the lemmas prove
   the Bellman-Ford equation.

Java `null` is modelled as follows:

- A `null` best route is `None`.
- A `null` distance list is the empty map, since every lookup in it misses
  as well.
- `"INF"` and the decimal cost strings are the datatype `Cost = Fin(n) | Inf`.
- The sentinels -1 (no link, no route) are kept exactly as the source uses
  them.

## Model

| member | source | states |
|---|---|---|
| Ordering.Less | DistanceVector.java:209 | `compareTo` is positive or negative only between different names. |
| Ordering.LessIrreflexive | DistanceVector.java:209 | No name precedes itself under `compareTo`. |
| Ordering.LessAsymmetric | DistanceVector.java:209 | If a precedes b, then b does not precede a. |
| Ordering.LessTransitive | DistanceVector.java:253 | The name order is transitive, as `Collections.sort` needs. |
| Ordering.LessTotal | DistanceVector.java:253 | Two different names are always ordered one way or the other. |
| Topology.Without | DistanceVector.java:114-129 | The intended removal never lengthens a list. |
| Topology.SkipRemove | DistanceVector.java:117-122 | The loop as written drops no more links than the intended removal, and never lengthens the list. |
| Topology.WithoutMembers | DistanceVector.java:114-129 | The removal keeps exactly the links that do not name the removed node. |
| Topology.WithoutIdempotent | DistanceVector.java:114-129 | Removing a self-loop's links a second time, from the same list, changes nothing. |
| Topology.SkipRemoveKeepsDuplicate | DistanceVector.java:116-122 | The loop as written, on the list [(B,1),(B,2)], leaves (B,2); the intended removal leaves nothing. |
| Topology.SkipRemoveAgrees | DistanceVector.java:116-122 | If no two consecutive links name the removed node, the loop as written removes all links to it. |
| Topology.SkipRemoveSingle | DistanceVector.java:116-122 | A list that names the removed node at most once loses exactly that link, even with the loop as written. |
| Topology.RemoveSkipping | DistanceVector.java:116-122 | The index loop with `i++` after every removal computes `SkipRemove`. |
| Topology.RemoveAll | DistanceVector.java:116-122 | The corrected loop, which advances only past kept links, computes `Without`: every link to the node is dropped and the others keep their order. |
| Topology.EditedMeaning | DistanceVector.java:97-133 | The result of one edit, `Edited`. Any weight other than -1 links the two endpoints both ways and changes no other list. Weight -1, with the corrected removal, unlinks them both ways, keeps every other link in order, and changes no other list. |
| Topology.Graph.constructor | DistanceVector.java:62-64 | A new graph has no nodes and is valid. |
| Topology.Graph.AddNode | DistanceVector.java:86-88 | The node gets an empty list, which replaces any list it had; nothing else changes. |
| Topology.Graph.AddEdge | DistanceVector.java:97-106 | Any weight other than -1 appends (neighbour, w) to the source's list and (source, w) to the neighbour's, creating missing lists; every other list is unchanged. Weight -1 removes the edge as `UpdateEdge` does. The new lists are `Edited` of the old ones. |
| Topology.Graph.UpdateEdge | DistanceVector.java:114-133 | Weight -1 removes the links between the two endpoints from both lists and keeps every other link in order; it fails when a list is missing. Any other weight adds the edge. The graph stays valid. On success the new lists are `Edited` of the old ones. |
| Topology.Graph.RemoveEdge | DistanceVector.java:115-128 | Edits the source's list first. Reports failure, without touching the neighbour, when the neighbour has no list. On success the new lists are `Edited` of the old ones. |
| Indexing.NumberingDistinct | DistanceVector.java:256-260 | A sequence numbered by position has no repeats. |
| Indexing.NumberingOrder | DistanceVector.java:253-260 | For sorted names, a smaller index means exactly a smaller name. |
| Indexing.LeastName | DistanceVector.java:253 | Returns the smallest name of a non-empty set. |
| Indexing.SortNames | DistanceVector.java:252-253 | The result is strictly sorted and holds exactly the given names. |
| Indexing.NumberNames | DistanceVector.java:256-260 | The name at position p gets index p, so the index map and the sequence are mutually inverse. |
| Indexing.NeighborToIndex | DistanceVector.java:250-262 | Maps the graph's node set one-to-one onto 0..N-1, in name order. |
| DistanceLists.IsMinUnique | DistanceVector.java:192-220 | At most one route meets `getMin`'s specification, so the map's iteration order cannot change the result. |
| DistanceLists.VisitInf | DistanceVector.java:200-201 | An `"INF"` entry leaves the running best unchanged. |
| DistanceLists.VisitCheaper | DistanceVector.java:204-207 | A strictly cheaper entry becomes the running best. |
| DistanceLists.VisitTieSmaller | DistanceVector.java:208-211 | An entry of equal cost with a smaller name becomes the running best. |
| DistanceLists.VisitOther | DistanceVector.java:208-213 | Any other finite entry leaves the running best unchanged. |
| DistanceLists.GetMin | DistanceVector.java:192-220 | Returns none exactly when every entry is `"INF"`. Otherwise it returns an entry of least cost, and among those the one with the smallest name. |
| DistanceVector.LastCost | DistanceVector.java:239-241 | The cell's final value is either its previous value or the cost of some link in the list that names the destination. |
| DistanceVector.LastCostIsLast | DistanceVector.java:236-242 | A cell of `neighborsCost` ends with the cost of the last link in the node's list that names the destination. |
| DistanceVector.LastCostAbsent | DistanceVector.java:236-242 | A cell that no link names keeps its previous value, the -1 of "no link". |
| DistanceVector.FillRow | DistanceVector.java:239-241 | Writing one node's links changes only that node's row, as `LastCost` describes. |
| DistanceVector.GetTables | DistanceVector.java:229-243 | Every diagonal best route becomes (node, 0), other best routes are untouched, and every link cost is written with last-write-wins. |
| DistanceVector.CloneMinCost | DistanceVector.java:174-181 | Copies the len x len grid cell by cell; cells outside it are unchanged. |
| DistanceVector.RouteCost | DistanceVector.java:360 | The route cost is -1 exactly when there is no route or the route's own cost is -1. |
| DistanceVector.Relax | DistanceVector.java:362-367 | One relaxed entry is INF exactly when there is no link or the route cost is -1. Otherwise it is the link cost plus the route's cost. |
| DistanceVector.RelaxedEntries | DistanceVector.java:356-367 | A relaxed list has one entry per via other than the node. Each entry is INF when there is no link or no route (-1), and otherwise link cost plus route cost. |
| DistanceVector.RelaxedKeys | DistanceVector.java:356-367 | The relaxed list's keys are exactly the node's vias. |
| DistanceVector.RelaxedFresh | DistanceVector.java:356-357 | A via has no entry before it is relaxed. |
| DistanceVector.SettledStep | DistanceVector.java:369-378 | A list is settled against one more entry exactly when it already stores that entry's value. |
| DistanceVector.SettledUnion | DistanceVector.java:369-378 | Relaxing a settled list leaves it as it is. |
| DistanceVector.SettledFromEntries | DistanceVector.java:369-378 | A list that stores every via's relaxed cost is settled. |
| DistanceVector.RelaxCell | DistanceVector.java:356-378 | The via loop stores an entry only when it is absent or different, so the list becomes the old list overridden by the relaxed one. The returned count stays below N and reaches N-1 exactly when the list already held every relaxed entry. |
| DistanceVector.RelaxPair | DistanceVector.java:354-382 | Relaxes one pair, then stores `getMin` of its new list in the renewal grid; no other cell changes. |
| DistanceVector.RelaxRow | DistanceVector.java:353-384 | Relaxes every destination of one node except the node itself, leaving other rows and the diagonal untouched. The row's count reaches (N-1)(N-1) exactly when the row was settled. |
| DistanceVector.RelaxRows | DistanceVector.java:352-385 | Relaxes every off-diagonal pair against the previous best routes only; the diagonal is untouched. The count reaches N(N-1)(N-1) exactly when every pair was settled. |
| DistanceVector.RelaxRound | DistanceVector.java:349-397 | One round reads only the previous round's best routes and writes a fresh copy, which is copied back at the end. Afterwards every best route is `getMin` of its list, and the diagonal keeps (node, 0). |
| DistanceVector.TimesRows | DistanceVector.java:386 | N rows of (N-1)(N-1) unchanged triples make the N(N-1)(N-1) the round's test compares against. |
| DistanceVector.Step | DistanceVector.java:350-397 | One iteration of `while (flag)`. Every off-diagonal list becomes the old list overridden by its relaxation. A stable round, started from best routes that agree with the lists, ends at a fixed point. A round started at a fixed point is stable and changes no list and no best route. |
| DistanceVector.Execute | DistanceVector.java:343-400 | Runs rounds until one changes no triple, or until the fuel runs out. It keeps the diagonal, the agreement of routes with lists, and the via keys. On convergence the state is a fixed point. Started at a fixed point, it stops after one round with the grids unchanged. |
| DistanceVector.ConvergedCell | DistanceVector.java:386-388 | At a fixed point every list equals its relaxation, and every best route is `getMin` of it. |
| DistanceVector.ConvergedNoRoute | DistanceVector.java:358-381 | At a fixed point there is no route from a to b exactly when no via has both a link from a and a route to b whose cost is not -1. |
| DistanceVector.ConvergedBestVia | DistanceVector.java:358-381 | At a fixed point the best route from a to b goes through a via v whose link cost plus route cost equals the best cost, and no via is cheaper: the Bellman-Ford equation. |
| DistanceVector.MergeRow | DistanceVector.java:414-422 | One old node's row of the copy. |
| DistanceVector.MergeMinCost | DistanceVector.java:411-425 | For every pair of old nodes, the new grids at the new indices hold the old route and list from the old indices. Cells that involve a new node are untouched. |
| DistanceVector.InitialConsistent | DistanceVector.java:455-462 | Freshly allocated grids (no routes, no lists) already agree, and are via-keyed. |
| DistanceVector.SeedTables | DistanceVector.java:454-461 | Allocates the grids, fills `neighborsCost` with -1, then runs `getTables`. |
| DistanceVector.Converge | DistanceVector.java:453-462 | The first computation of `main`. If it converges, the state is a fixed point whose direct costs come from the graph and whose diagonal is (node, 0). |
| DistanceVector.ApplyEdits | DistanceVector.java:464-473 | Applies the edits in order. It never deletes a node; when every edit succeeds, the node set grows by exactly the endpoints of the non-removal edits, and the lists are those of `Applied`: each edit in turn, as `Edited` describes. |
| DistanceVector.MergedSelfRoutes | DistanceVector.java:477-485 | After the copy, every node still routes to itself at cost 0. |
| DistanceVector.MergedConsistent | DistanceVector.java:411-425 | Copying a consistent, via-keyed old state into the new index space gives a consistent, via-keyed new state. |
| DistanceVector.Reseed | DistanceVector.java:476-485 | Re-numbers the edited graph and seeds new grids with its direct costs. Pairs of old nodes get the old route and list. A pair that involves a new node gets no list, and no route except (node, 0) on the diagonal. |
| DistanceVector.Reconverge | DistanceVector.java:475-487 | The second computation of `main`. Starting from a consistent old state, if it converges, the new state is a fixed point of the edited graph. |

## Left out

- Input and output. `main`'s Scanner loops, `padStringToWidth`, `printDistanceTable` and `printRoutingTable` are not modelled. The edits that `main` reads become a parameter of `ApplyEdits`; the node-reading loop is `Graph.AddNode`.
- The static `tick` counter only labels printed output. `Execute` returns the number of rounds instead.
- Trivial accessors are not modelled: the getters and setters of `Neighbor`, `Graph` and `DistanceList`.
- HashMap iteration order:
  - The round loops and `mergeMinCost` visit nodes in index order. Each round reads only the previous round's best routes, and each pair writes only its own cells, so the order cannot matter.
  - `getMin` visits its map in arbitrary order, and `IsMinUnique` shows that its result does not depend on that order.
- Java `int` overflow is not modelled; costs are unbounded integers. This covers `neighborCost + minCostD` wrapping around, and `getMin`'s starting value `Integer.MAX_VALUE`, which is modelled as "no finite entry yet". An entry whose cost is exactly `Integer.MAX_VALUE` would never be chosen by the source.
- Topology.Graph.UpdateEdge: with weight -1, the model removes every link to the other endpoint (`Without`, the loop as `RemoveAll` corrects it). The source's loops at DistanceVector.java:117-129 skip the link after each removal (`SkipRemove`); see Findings. The two agree whenever no two consecutive links name the removed node (`SkipRemoveAgrees`).
- Topology.Graph.RemoveEdge: uses the corrected removal loop `RemoveAll`, not the skipping loop as written; see Findings.
- Topology.Graph.AddEdge: its weight -1 branch goes through `UpdateEdge`, and so removes with the corrected loop as well. `ApplyEdits` and `Reconverge` therefore model `main` with that finding corrected.
- Topology.EditedMeaning: `Edited` states one edit with the corrected removal. With weight -1 it drops every link between the two endpoints. The source's loops at DistanceVector.java:117-129 keep the second of two consecutive such links (`SkipRemoveKeepsDuplicate`). The two agree whenever no two consecutive links name the removed node (`SkipRemoveAgrees`).
- DistanceVector.ApplyEdits: its lists are `Applied`, a fold of `Edited`, so a -1 edit drops every link between the endpoints. The source keeps the second of two consecutive such links; they agree under `SkipRemoveAgrees`'s condition.
- Topology.Graph.UpdateEdge: when an endpoint has no list, the source throws a `NullPointerException`, which ends `main`. The model reports failure instead, and `ApplyEdits` stops at the first failed edit.
- DistanceVector.Execute: the `while (flag)` loop has no termination proof, for the first computation or the second. After an edge removal, a count-to-infinity can loop forever. The source also accepts any weight other than -1, and a negative weight can keep even the first computation from terminating. An example is the edges A-B -2 and B-C 5. The best routes from A and from B to C then cycle through the costs (3, 5), (3, 1), (-1, 1) and (-1, 5) forever. They cycle rather than fall without bound because a route cost of -1 reads as "no route". A negative edge with no third node in its component (a lone A-B -2 beside an isolated C) still stops. So the loop is bounded by a `fuel` number of rounds, and no bound of N rounds for non-negative weights is proved. On convergence the fixed point is guaranteed only when the start state's best routes agreed with its lists, or when more than one round ran. Both initial states `main` builds meet this.
- DistanceVector.MergeMinCost: copies values. The source shares the `DistanceList` objects between the old and the new table, so later rounds also change the old table. `main` never reads the old table again.
- DistanceVector.Reconverge: `main` runs it only when at least one edit was read (`if (flag)`); that test is left to the caller.
- Ordering.Less: `compareTo` compares UTF-16 code units, while `Less` compares Dafny characters (Unicode scalar values). The two orders differ only for characters outside the Basic Multilingual Plane.
- A route whose cost happens to be -1 is treated as "no route". This can only arise with negative link weights. It is modelled as written (`RouteCost` and `Relax`).
- `getMin` on a `null` list throws in the source. It is unreachable, because every relaxed pair gets at least one via entry before `getMin` runs.

## Findings

| source | as written | input that shows it | evidently intended | confidence | as-written member | corrected member |
|---|---|---|---|---|---|---|
| DistanceVector.java:116-122 | After removing the link at index i, the loop still increments i, so the link that moved into position i is never examined. | Edges `A B 1` and `A B 2`, then the update `A B -1`: A's list [(B,1),(B,2)] keeps (B,2). | Every link to the removed neighbour is dropped from both lists. | not executed | Topology.SkipRemoveKeepsDuplicate | Topology.RemoveAll |
