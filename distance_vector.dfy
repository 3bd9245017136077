/**
 * The synchronous distance-vector (Bellman-Ford) engine: seeding of the
 * cost tables, the round loop that relaxes every (node, destination, via)
 * triple against the previous round's best routes, and the copy of a
 * converged state into a new index space after a topology edit.
 */
module DistanceVector {
  import opened Topology
  import opened Indexing
  import opened DistanceLists

  /** The value of `neighborsCost` for "no direct link". */
  const NoEdge: int := -1

  ghost predicate Square<T>(a: array2<T>, n: nat)
  {
    a.Length0 == n && a.Length1 == n
  }

  /**
   * The cost that the links of `list` leave in one cell of `neighborsCost`
   * when written in order: that of the last link naming `name`, or the
   * cell's previous value `prior` when no link names it.
   */
  function LastCost(list: seq<Neighbor>, name: string, prior: int): (r: int)
    ensures r == prior || exists p :: 0 <= p < |list| && list[p].name == name && list[p].cost == r
    decreases |list|
  {
    if list == [] then prior
    else if list[|list| - 1].name == name then list[|list| - 1].cost
    else LastCost(list[..|list| - 1], name, prior)
  }

  /** Last write wins: the cell ends with the cost of the last link that names the node. */
  lemma {:induction false} LastCostIsLast(list: seq<Neighbor>, name: string, prior: int, p: nat)
    requires p < |list| && list[p].name == name
    requires forall q :: p < q < |list| ==> list[q].name != name
    ensures LastCost(list, name, prior) == list[p].cost
    decreases |list|
  {
    if p < |list| - 1 {
      var init := list[..|list| - 1];
      assert init[p] == list[p];
      LastCostIsLast(init, name, prior, p);
    }
  }

  /** A cell that no link names keeps its previous value (the -1 of "no direct link"). */
  lemma {:induction false} LastCostAbsent(list: seq<Neighbor>, name: string, prior: int)
    requires forall p :: 0 <= p < |list| ==> list[p].name != name
    ensures LastCost(list, name, prior) == prior
    decreases |list|
  {
    if list != [] {
      var init := list[..|list| - 1];
      assert forall p :: 0 <= p < |init| ==> init[p] == list[p];
      LastCostAbsent(init, name, prior);
    }
  }

  /** Writes one node's links into its row of `neighborsCost` (the inner loop of `getTables`). */
  method FillRow(nc: array2<int>, p: nat, list: seq<Neighbor>, names: seq<string>, idx: map<string, nat>)
    requires Numbering(names, idx) && Square(nc, |names|) && p < |names|
    requires forall e :: e in list ==> e.name in idx
    modifies nc
    ensures forall a, b :: 0 <= a < |names| && 0 <= b < |names| ==>
              nc[a, b] == if a == p then LastCost(list, names[b], old(nc[a, b])) else old(nc[a, b])
  {
    for e := 0 to |list|
      invariant forall a, b :: 0 <= a < |names| && 0 <= b < |names| ==>
                  nc[a, b] == if a == p then LastCost(list[..e], names[b], old(nc[a, b])) else old(nc[a, b])
    {
      assert list[e] in list;
      assert list[..e + 1][..e] == list[..e];
      nc[p, idx[list[e].name]] := list[e].cost;
    }
    assert list[..|list|] == list;
  }

  /**
   * `getTables`: puts the route (node, 0) on the diagonal of `minCost` and
   * writes every link of every node into `neighborsCost`.
   */
  method GetTables(nc: array2<int>, minCost: array2<Route>, names: seq<string>, idx: map<string, nat>, g: Graph)
    requires g.Valid() && idx.Keys == g.adj.Keys && Numbering(names, idx)
    requires Square(nc, |names|) && Square(minCost, |names|)
    modifies nc, minCost
    ensures forall a, b :: 0 <= a < |names| && 0 <= b < |names| ==>
              nc[a, b] == LastCost(g.adj[names[a]], names[b], old(nc[a, b]))
    ensures forall a, b :: 0 <= a < |names| && 0 <= b < |names| ==>
              minCost[a, b] == if a == b then Some(Neighbor(names[a], 0)) else old(minCost[a, b])
  {
    for p := 0 to |names|
      modifies minCost
      invariant forall a, b :: 0 <= a < |names| && 0 <= b < |names| ==>
                  minCost[a, b] == if a == b && a < p then Some(Neighbor(names[a], 0)) else old(minCost[a, b])
    {
      minCost[p, p] := Some(Neighbor(names[p], 0));
    }
    for p := 0 to |names|
      modifies nc
      invariant forall a, b :: 0 <= a < |names| && 0 <= b < |names| ==>
                  nc[a, b] == if a < p then LastCost(g.adj[names[a]], names[b], old(nc[a, b])) else old(nc[a, b])
    {
      FillRow(nc, p, g.adj[names[p]], names, idx);
    }
  }

  /** `cloneMinCost`: copies the len x len grid `src` into `dst`. */
  method CloneMinCost(dst: array2<Route>, src: array2<Route>)
    requires src.Length1 >= src.Length0 && dst.Length0 >= src.Length0 && dst.Length1 >= src.Length0
    modifies dst
    ensures forall a, b :: 0 <= a < dst.Length0 && 0 <= b < dst.Length1 ==>
              dst[a, b] == if a < src.Length0 && b < src.Length0 then old(src[a, b]) else old(dst[a, b])
  {
    var len := src.Length0;
    for i := 0 to len
      invariant forall a, b :: 0 <= a < dst.Length0 && 0 <= b < dst.Length1 ==>
                  dst[a, b] == if a < i && b < len then old(src[a, b]) else old(dst[a, b])
      invariant forall a, b :: 0 <= a < len && 0 <= b < len && i <= a ==> src[a, b] == old(src[a, b])
    {
      for j := 0 to len
        invariant forall a, b :: 0 <= a < dst.Length0 && 0 <= b < dst.Length1 ==>
                    dst[a, b] == if (a < i || (a == i && b < j)) && b < len then old(src[a, b]) else old(dst[a, b])
        invariant forall a, b :: 0 <= a < len && 0 <= b < len && (i < a || (a == i && j <= b)) ==> src[a, b] == old(src[a, b])
      {
        dst[i, j] := src[i, j];
      }
    }
  }

  /** `minCostD`: the cost of a best route, or -1 when there is none. */
  function RouteCost(r: Route): (c: int)
    ensures c == -1 <==> r.None? || r.value.cost == -1
  {
    if r.None? then -1 else r.value.cost
  }

  /**
   * The cost through one via-neighbour: infinite when there is no direct link
   * to it or it has no route (cost -1) to the destination, otherwise the sum.
   */
  function Relax(direct: int, route: Route): (c: Cost)
    ensures c == Inf <==> direct == NoEdge || route.None? || route.value.cost == -1
    ensures c.Fin? ==> route.Some? && c.n == direct + route.value.cost
  {
    if direct == NoEdge || RouteCost(route) == -1 then Inf else Fin(direct + RouteCost(route))
  }

  /** The distance list of (node i, destination j) as relaxed over the vias 0..upTo-1 other than i. */
  ghost function RelaxedUpTo(nc: array2<int>, minCost: array2<Route>, names: seq<string>, i: nat, j: nat, upTo: nat): DistanceList
    reads nc, minCost
    requires Square(nc, |names|) && Square(minCost, |names|)
    requires i < |names| && j < |names| && upTo <= |names|
  {
    if upTo == 0 then map[]
    else if upTo - 1 == i then RelaxedUpTo(nc, minCost, names, i, j, upTo - 1)
    else RelaxedUpTo(nc, minCost, names, i, j, upTo - 1)[names[upTo - 1] := Relax(nc[i, upTo - 1], minCost[upTo - 1, j])]
  }

  /** The relaxed list has one entry per via v other than i, named names[v], and no other entry. */
  lemma {:induction false} RelaxedEntries(nc: array2<int>, minCost: array2<Route>, names: seq<string>, i: nat, j: nat, upTo: nat)
    requires Distinct(names) && Square(nc, |names|) && Square(minCost, |names|)
    requires i < |names| && j < |names| && upTo <= |names|
    ensures forall k :: k in RelaxedUpTo(nc, minCost, names, i, j, upTo) ==>
              exists v :: 0 <= v < upTo && v != i && names[v] == k
    ensures forall v :: 0 <= v < upTo && v != i ==>
              names[v] in RelaxedUpTo(nc, minCost, names, i, j, upTo) &&
              RelaxedUpTo(nc, minCost, names, i, j, upTo)[names[v]] == Relax(nc[i, v], minCost[v, j])
    decreases upTo
  {
    if upTo > 0 {
      RelaxedEntries(nc, minCost, names, i, j, upTo - 1);
    }
  }

  /** What one round computes for (node i, destination j): one entry per via other than i. */
  ghost function RelaxedCell(nc: array2<int>, minCost: array2<Route>, names: seq<string>, i: nat, j: nat): DistanceList
    reads nc, minCost
    requires Square(nc, |names|) && Square(minCost, |names|)
    requires i < |names| && j < |names|
  {
    RelaxedUpTo(nc, minCost, names, i, j, |names|)
  }

  /** Relaxing changes nothing: every computed entry is already stored with that value. */
  ghost predicate Settled(cell: DistanceList, relaxed: DistanceList)
  {
    forall k :: k in relaxed ==> k in cell && cell[k] == relaxed[k]
  }

  /** The via about to be relaxed has no entry yet. */
  lemma RelaxedFresh(nc: array2<int>, minCost: array2<Route>, names: seq<string>, i: nat, j: nat, v: nat)
    requires Distinct(names) && Square(nc, |names|) && Square(minCost, |names|)
    requires i < |names| && j < |names| && v < |names|
    ensures names[v] !in RelaxedUpTo(nc, minCost, names, i, j, v)
  {
    RelaxedEntries(nc, minCost, names, i, j, v);
  }

  /** A cell is settled against one more entry exactly when it already stores that entry. */
  lemma SettledStep(cell: DistanceList, relaxed: DistanceList, k: string, c: Cost)
    requires k !in relaxed
    ensures Settled(cell, relaxed[k := c]) <==> Settled(cell, relaxed) && k in cell && cell[k] == c
  {
    if Settled(cell, relaxed[k := c]) {
      assert k in relaxed[k := c];
    }
  }

  /**
   * The via loop of `executeDistanceVectorAlgorithm` for one (node i,
   * destination j): stores each via's cost when it is absent or different
   * and counts the vias whose stored cost was already right.
   */
  method RelaxCell(nc: array2<int>, minCost: array2<Route>, names: seq<string>, i: nat, j: nat, cell: DistanceList)
    returns (updated: DistanceList, same: nat)
    requires Distinct(names) && Square(nc, |names|) && Square(minCost, |names|)
    requires i < |names| && j < |names|
    ensures updated == cell + RelaxedCell(nc, minCost, names, i, j)
    ensures same < |names|
    ensures same == |names| - 1 <==> Settled(cell, RelaxedCell(nc, minCost, names, i, j))
  {
    updated := cell;
    same := 0;
    ghost var done: DistanceList := map[];
    for v := 0 to |names|
      invariant done == RelaxedUpTo(nc, minCost, names, i, j, v)
      invariant updated == cell + done
      invariant same <= if i < v then v - 1 else v
      invariant same == (if i < v then v - 1 else v) <==> Settled(cell, done)
    {
      RelaxedFresh(nc, minCost, names, i, j, v);
      if v != i {
        var cost := Relax(nc[i, v], minCost[v, j]);
        SettledStep(cell, done, names[v], cost);
        var changed := names[v] !in updated || updated[names[v]] != cost;
        assert changed <==> !(names[v] in cell && cell[names[v]] == cost);
        if changed {
          updated := updated[names[v] := cost];
        } else {
          same := same + 1;
        }
        done := done[names[v] := cost];
      }
    }
  }

  /** Every off-diagonal best route is the one `getMin` picks from its distance list. */
  ghost predicate Consistent(table: array2<DistanceList>, minCost: array2<Route>, n: nat)
    reads table, minCost
    requires Square(table, n) && Square(minCost, n)
  {
    forall a, b :: 0 <= a < n && 0 <= b < n && a != b ==> IsMin(table[a, b], minCost[a, b])
  }

  /**
   * A fixed point of the rounds: the best routes agree with the distance
   * lists, and relaxing against those best routes would store nothing new.
   */
  ghost predicate Converged(nc: array2<int>, minCost: array2<Route>, names: seq<string>, table: array2<DistanceList>)
    reads nc, minCost, table
    requires Distinct(names) && Square(nc, |names|) && Square(minCost, |names|) && Square(table, |names|)
  {
    && Consistent(table, minCost, |names|)
    && forall a, b :: 0 <= a < |names| && 0 <= b < |names| && a != b ==>
         Settled(table[a, b], RelaxedCell(nc, minCost, names, a, b))
  }

  /** k * m by repeated addition, so that the counting invariants stay linear. */
  function Times(k: nat, m: nat): nat
  {
    if k == 0 then 0 else Times(k - 1, m) + m
  }

  lemma {:induction false} TimesIsProduct(k: nat, m: nat)
    ensures Times(k, m) == k * m
  {
    if k > 0 {
      TimesIsProduct(k - 1, m);
    }
  }

  /** The number of (node, destination, via) triples a round examines for n nodes: N(N-1)(N-1). */
  function Triples(n: nat): nat
  {
    n * (n - 1) * (n - 1)
  }

  /** The number of triples one row examines: N-1 destinations, N-1 vias each. */
  function PerRow(n: nat): nat
  {
    (n - 1) * (n - 1)
  }

  /** n rows of PerRow(n) triples each make the N(N-1)(N-1) of the exit test. */
  lemma TimesRows(n: nat)
    ensures Times(n, PerRow(n)) == Triples(n)
  {
    TimesIsProduct(n, PerRow(n));
    assert n * ((n - 1) * (n - 1)) == n * (n - 1) * (n - 1);
  }

  /** The number of triples row i visits over the destinations 0..j-1 other than i, m vias each. */
  function Examined(i: nat, j: nat, m: nat): nat
  {
    if j == 0 then 0 else Examined(i, j - 1, m) + (if j - 1 == i then 0 else m)
  }

  lemma {:induction false} ExaminedRow(i: nat, j: nat, m: nat)
    requires i < j
    ensures Examined(i, j, m) == (j - 1) * m
  {
    if j - 1 != i {
      ExaminedRow(i, j - 1, m);
    } else {
      ExaminedBefore(i, j - 1, m);
    }
  }

  lemma {:induction false} ExaminedBefore(i: nat, j: nat, m: nat)
    requires j <= i
    ensures Examined(i, j, m) == j * m
  {
    if j > 0 {
      ExaminedBefore(i, j - 1, m);
    }
  }

  /** One (node i, destination j) pair of a round: relax its list, then store `getMin` of it. */
  method RelaxPair(nc: array2<int>, minCost: array2<Route>, names: seq<string>, table: array2<DistanceList>,
                   renew: array2<Route>, i: nat, j: nat)
    returns (same: nat, best: Route)
    requires Distinct(names) && Square(nc, |names|) && Square(minCost, |names|) && Square(table, |names|)
    requires Square(renew, |names|) && renew != minCost && i < |names| && j < |names| && i != j
    modifies table, renew
    ensures table[i, j] == old(table[i, j]) + old(RelaxedCell(nc, minCost, names, i, j))
    ensures renew[i, j] == best && IsMin(table[i, j], best)
    ensures same < |names| && (same == |names| - 1 <==> Settled(old(table[i, j]), old(RelaxedCell(nc, minCost, names, i, j))))
    ensures forall a, b :: 0 <= a < |names| && 0 <= b < |names| && (a != i || b != j) ==>
              table[a, b] == old(table[a, b]) && renew[a, b] == old(renew[a, b])
  {
    var updated;
    updated, same := RelaxCell(nc, minCost, names, i, j, table[i, j]);
    table[i, j] := updated;
    best := GetMin(updated);
    renew[i, j] := best;
  }

  /**
   * The pairs (node i, destination j), j != i, of one round: relaxes each
   * pair's distance list and stores its best route in `renew`. Returns the
   * number of triples of the row left unchanged.
   */
  method RelaxRow(nc: array2<int>, minCost: array2<Route>, names: seq<string>, table: array2<DistanceList>,
                  renew: array2<Route>, i: nat)
    returns (rowCount: nat)
    requires Distinct(names) && Square(nc, |names|) && Square(minCost, |names|) && Square(table, |names|)
    requires Square(renew, |names|) && renew != minCost && i < |names|
    modifies table, renew
    ensures forall b :: 0 <= b < |names| && b != i ==>
              table[i, b] == old(table[i, b]) + old(RelaxedCell(nc, minCost, names, i, b)) && IsMin(table[i, b], renew[i, b])
    ensures forall a, b :: 0 <= a < |names| && 0 <= b < |names| && (a != i || b == i) ==>
              table[a, b] == old(table[a, b]) && renew[a, b] == old(renew[a, b])
    ensures rowCount <= (|names| - 1) * (|names| - 1)
    ensures rowCount == (|names| - 1) * (|names| - 1) <==>
              forall b :: 0 <= b < |names| && b != i ==> Settled(old(table[i, b]), old(RelaxedCell(nc, minCost, names, i, b)))
  {
    var n := |names|;
    rowCount := 0;
    ghost var examined := 0;
    for j := 0 to n
      invariant examined == Examined(i, j, n - 1)
      invariant rowCount <= examined
      invariant rowCount == examined <==>
                  forall b :: 0 <= b < j && b != i ==> Settled(old(table[i, b]), old(RelaxedCell(nc, minCost, names, i, b)))
      invariant forall b :: 0 <= b < j && b != i ==> table[i, b] == old(table[i, b]) + old(RelaxedCell(nc, minCost, names, i, b))
      invariant forall a, b :: 0 <= a < n && 0 <= b < n && (a != i || b == i || j <= b) ==> table[a, b] == old(table[a, b])
      invariant forall a, b :: 0 <= a < n && 0 <= b < n && (a != i || b == i || j <= b) ==> renew[a, b] == old(renew[a, b])
      invariant forall b :: 0 <= b < j && b != i ==> IsMin(table[i, b], renew[i, b])
    {
      if j != i {
        var same, best := RelaxPair(nc, minCost, names, table, renew, i, j);
        rowCount := rowCount + same;
        examined := examined + (n - 1);
      }
    }
    ExaminedRow(i, n, n - 1);
  }

  /**
   * The two outer loops of a round: every row in turn. The best routes go
   * to `renew`; `minCost` is only read.
   */
  method RelaxRows(nc: array2<int>, minCost: array2<Route>, names: seq<string>, table: array2<DistanceList>,
                   renew: array2<Route>)
    returns (count: nat)
    requires Distinct(names) && Square(nc, |names|) && Square(minCost, |names|) && Square(table, |names|)
    requires Square(renew, |names|) && renew != minCost
    modifies table, renew
    ensures forall a, b :: 0 <= a < |names| && 0 <= b < |names| && a != b ==>
              table[a, b] == old(table[a, b]) + old(RelaxedCell(nc, minCost, names, a, b)) && IsMin(table[a, b], renew[a, b])
    ensures forall a :: 0 <= a < |names| ==> table[a, a] == old(table[a, a]) && renew[a, a] == old(renew[a, a])
    ensures count == Triples(|names|) <==>
              forall a, b :: 0 <= a < |names| && 0 <= b < |names| && a != b ==>
                Settled(old(table[a, b]), old(RelaxedCell(nc, minCost, names, a, b)))
  {
    var n := |names|;
    count := 0;
    ghost var examined := 0;
    for i := 0 to n
      invariant examined == Times(i, PerRow(n))
      invariant count <= examined
      invariant count == examined <==>
                  forall a, b :: 0 <= a < i && 0 <= b < n && a != b ==> Settled(old(table[a, b]), old(RelaxedCell(nc, minCost, names, a, b)))
      invariant forall a, b :: 0 <= a < i && 0 <= b < n && a != b ==> table[a, b] == old(table[a, b]) + old(RelaxedCell(nc, minCost, names, a, b))
      invariant forall a, b :: 0 <= a < n && 0 <= b < n && (i <= a || a == b) ==> table[a, b] == old(table[a, b])
      invariant forall a, b :: 0 <= a < i && 0 <= b < n && a != b ==> IsMin(table[a, b], renew[a, b])
      invariant forall a, b :: 0 <= a < n && 0 <= b < n && (i <= a || a == b) ==> renew[a, b] == old(renew[a, b])
    {
      var rowCount := RelaxRow(nc, minCost, names, table, renew, i);
      count := count + rowCount;
      examined := examined + PerRow(n);
    }
    TimesRows(n);
  }

  /**
   * One round of `executeDistanceVectorAlgorithm`: every (node, destination)
   * pair off the diagonal is relaxed against the best routes of the previous
   * round only; the new best routes go to a fresh `minCostRenew`, which is
   * copied back at the end. Returns the number of triples left unchanged.
   */
  method RelaxRound(nc: array2<int>, minCost: array2<Route>, names: seq<string>, table: array2<DistanceList>)
    returns (count: nat)
    requires Distinct(names) && Square(nc, |names|) && Square(minCost, |names|) && Square(table, |names|)
    modifies minCost, table
    ensures forall a, b :: 0 <= a < |names| && 0 <= b < |names| && a != b ==>
              table[a, b] == old(table[a, b]) + old(RelaxedCell(nc, minCost, names, a, b))
    ensures Consistent(table, minCost, |names|)
    ensures forall a :: 0 <= a < |names| ==> table[a, a] == old(table[a, a]) && minCost[a, a] == old(minCost[a, a])
    ensures count == Triples(|names|) <==>
              forall a, b :: 0 <= a < |names| && 0 <= b < |names| && a != b ==>
                Settled(old(table[a, b]), old(RelaxedCell(nc, minCost, names, a, b)))
  {
    var n := |names|;
    var renew := new Route[n, n];
    CloneMinCost(renew, minCost);
    count := RelaxRows(nc, minCost, names, table, renew);
    CloneMinCost(minCost, renew);
  }

  /** The via names a row i relaxes over: every node but i itself. */
  ghost function Vias(names: seq<string>, i: nat): set<string>
  {
    set v | 0 <= v < |names| && v != i :: names[v]
  }

  /** The relaxed list has exactly the vias of its row as keys, whatever the costs. */
  lemma RelaxedKeys(nc: array2<int>, minCost: array2<Route>, names: seq<string>, i: nat, j: nat)
    requires Distinct(names) && Square(nc, |names|) && Square(minCost, |names|)
    requires i < |names| && j < |names|
    ensures RelaxedCell(nc, minCost, names, i, j).Keys == Vias(names, i)
  {
    RelaxedEntries(nc, minCost, names, i, j, |names|);
  }

  /** Every distance list holds entries for vias of its own row only. */
  ghost predicate ViaKeyed(table: array2<DistanceList>, names: seq<string>)
    reads table
    requires Square(table, |names|)
  {
    forall a, b :: 0 <= a < |names| && 0 <= b < |names| && a != b ==> table[a, b].Keys <= Vias(names, a)
  }

  /** Relaxing a list against entries already stored leaves it as it is. */
  lemma SettledUnion(cell: DistanceList, relaxed: DistanceList)
    requires Settled(cell, relaxed)
    ensures cell + relaxed == cell
  {
  }

  /** A list that stores, for every via of its row, the relaxed cost through it is settled. */
  lemma SettledFromEntries(cell: DistanceList, nc: array2<int>, minCost: array2<Route>, names: seq<string>, i: nat, j: nat)
    requires Distinct(names) && Square(nc, |names|) && Square(minCost, |names|)
    requires i < |names| && j < |names|
    requires forall v :: 0 <= v < |names| && v != i ==>
               names[v] in cell && cell[names[v]] == Relax(nc[i, v], minCost[v, j])
    ensures Settled(cell, RelaxedCell(nc, minCost, names, i, j))
  {
    RelaxedEntries(nc, minCost, names, i, j, |names|);
  }

  /**
   * One iteration of the `while (flag)` loop: a round, then the count test.
   * `stable` says that the round left every triple as it was; it is then a
   * fixed point when the best routes it started from agreed with the lists.
   * The ghost flags name premises about the state before the round; they
   * stand in for `old(Consistent(..))` and the like, which keeps the
   * verifier from unfolding those predicates in two heaps at once.
   */
  method Step(nc: array2<int>, minCost: array2<Route>, names: seq<string>, table: array2<DistanceList>,
              ghost wasConsistent: bool, ghost wasKeyed: bool, ghost wasConverged: bool)
    returns (stable: bool)
    requires Distinct(names) && Square(nc, |names|) && Square(minCost, |names|) && Square(table, |names|)
    requires wasConsistent ==> Consistent(table, minCost, |names|)
    requires wasKeyed ==> ViaKeyed(table, names)
    requires wasConverged ==> Converged(nc, minCost, names, table)
    modifies minCost, table
    ensures forall a, b :: 0 <= a < |names| && 0 <= b < |names| && a != b ==>
              table[a, b] == old(table[a, b]) + old(RelaxedCell(nc, minCost, names, a, b))
    ensures forall a :: 0 <= a < |names| ==> table[a, a] == old(table[a, a]) && minCost[a, a] == old(minCost[a, a])
    ensures Consistent(table, minCost, |names|)
    ensures wasKeyed ==> ViaKeyed(table, names)
    ensures stable && wasConsistent ==> Converged(nc, minCost, names, table)
    ensures stable <==> forall a, b :: 0 <= a < |names| && 0 <= b < |names| && a != b ==>
                          Settled(old(table[a, b]), old(RelaxedCell(nc, minCost, names, a, b)))
    ensures wasConverged ==> stable
    ensures wasConverged ==> forall a, b :: 0 <= a < |names| && 0 <= b < |names| ==>
                               table[a, b] == old(table[a, b]) && minCost[a, b] == old(minCost[a, b])
  {
    var n := |names|;
    forall a, b | 0 <= a < n && 0 <= b < n && a != b
      ensures RelaxedCell(nc, minCost, names, a, b).Keys == Vias(names, a)
      ensures forall v :: 0 <= v < n && v != a ==>
                names[v] in RelaxedCell(nc, minCost, names, a, b) &&
                RelaxedCell(nc, minCost, names, a, b)[names[v]] == Relax(nc[a, v], minCost[v, b])
    {
      RelaxedKeys(nc, minCost, names, a, b);
      RelaxedEntries(nc, minCost, names, a, b, n);
    }
    var count := RelaxRound(nc, minCost, names, table);
    stable := count == Triples(n);
    if stable && (wasConsistent || wasConverged) {
      forall a, b | 0 <= a < n && 0 <= b < n && a != b
        ensures table[a, b] == old(table[a, b]) && minCost[a, b] == old(minCost[a, b])
      {
        SettledUnion(old(table[a, b]), old(RelaxedCell(nc, minCost, names, a, b)));
        IsMinUnique(table[a, b], minCost[a, b], old(minCost[a, b]));
      }
      forall a, b | 0 <= a < n && 0 <= b < n && a != b
        ensures Settled(table[a, b], RelaxedCell(nc, minCost, names, a, b))
      {
        SettledFromEntries(table[a, b], nc, minCost, names, a, b);
      }
    }
  }

  /**
   * The `while (flag)` loop of `executeDistanceVectorAlgorithm`, bounded by
   * `fuel` rounds: runs rounds until one leaves all N(N-1)(N-1) triples
   * unchanged. `converged` says that such a round happened; `rounds` is the
   * number of rounds run.
   */
  method Execute(nc: array2<int>, minCost: array2<Route>, names: seq<string>, table: array2<DistanceList>, fuel: nat)
    returns (converged: bool, rounds: nat)
    requires Distinct(names) && Square(nc, |names|) && Square(minCost, |names|) && Square(table, |names|)
    modifies minCost, table
    ensures rounds <= fuel && (converged || rounds == fuel) && (converged ==> rounds > 0)
    ensures forall a :: 0 <= a < |names| ==> table[a, a] == old(table[a, a]) && minCost[a, a] == old(minCost[a, a])
    ensures rounds > 0 ==> Consistent(table, minCost, |names|)
    ensures old(Consistent(table, minCost, |names|)) ==> Consistent(table, minCost, |names|)
    ensures old(ViaKeyed(table, names)) ==> ViaKeyed(table, names)
    ensures converged && (rounds > 1 || old(Consistent(table, minCost, |names|))) ==> Converged(nc, minCost, names, table)
    ensures old(Converged(nc, minCost, names, table)) && fuel > 0 ==>
              converged && rounds == 1 &&
              forall a, b :: 0 <= a < |names| && 0 <= b < |names| ==>
                table[a, b] == old(table[a, b]) && minCost[a, b] == old(minCost[a, b])
  {
    var n := |names|;
    var flag := true;
    rounds := 0;
    ghost var consistentAtStart := Consistent(table, minCost, n);
    ghost var keyedAtStart := ViaKeyed(table, names);
    ghost var convergedAtStart := Converged(nc, minCost, names, table);
    while flag && rounds < fuel
      invariant rounds <= fuel && (!flag ==> rounds > 0)
      invariant forall a :: 0 <= a < n ==> table[a, a] == old(table[a, a]) && minCost[a, a] == old(minCost[a, a])
      invariant rounds > 0 || consistentAtStart ==> Consistent(table, minCost, n)
      invariant keyedAtStart ==> ViaKeyed(table, names)
      invariant !flag && (rounds > 1 || consistentAtStart) ==> Converged(nc, minCost, names, table)
      invariant rounds == 0 && convergedAtStart ==> Converged(nc, minCost, names, table)
      invariant rounds == 0 || (convergedAtStart && rounds == 1 && !flag) ==>
                  forall a, b :: 0 <= a < n && 0 <= b < n ==> table[a, b] == old(table[a, b]) && minCost[a, b] == old(minCost[a, b])
      invariant convergedAtStart && rounds > 0 ==> rounds == 1 && !flag
      decreases fuel - rounds, flag
    {
      var stable := Step(nc, minCost, names, table, rounds > 0 || consistentAtStart, keyedAtStart,
                         rounds == 0 && convergedAtStart);
      rounds := rounds + 1;
      if stable {
        flag := false;
      }
    }
    converged := !flag;
  }

  /**
   * At a fixed point whose lists hold vias of their own row only, every
   * distance list is exactly the relaxation of the best routes, and every
   * best route is the `getMin` choice from it.
   */
  lemma ConvergedCell(nc: array2<int>, minCost: array2<Route>, names: seq<string>, table: array2<DistanceList>, a: nat, b: nat)
    requires Distinct(names) && Square(nc, |names|) && Square(minCost, |names|) && Square(table, |names|)
    requires Converged(nc, minCost, names, table) && ViaKeyed(table, names)
    requires a < |names| && b < |names| && a != b
    ensures table[a, b] == RelaxedCell(nc, minCost, names, a, b)
    ensures IsMin(RelaxedCell(nc, minCost, names, a, b), minCost[a, b])
  {
    RelaxedKeys(nc, minCost, names, a, b);
    assert table[a, b].Keys == RelaxedCell(nc, minCost, names, a, b).Keys;
  }

  /**
   * The Bellman-Ford equation at a fixed point, first half: there is no best
   * route from a to b exactly when no via has both a direct link and a route.
   */
  lemma ConvergedNoRoute(nc: array2<int>, minCost: array2<Route>, names: seq<string>, table: array2<DistanceList>, a: nat, b: nat)
    requires Distinct(names) && Square(nc, |names|) && Square(minCost, |names|) && Square(table, |names|)
    requires Converged(nc, minCost, names, table) && ViaKeyed(table, names)
    requires a < |names| && b < |names| && a != b
    ensures minCost[a, b].None? <==> forall v :: 0 <= v < |names| && v != a ==> Relax(nc[a, v], minCost[v, b]) == Inf
  {
    ConvergedCell(nc, minCost, names, table, a, b);
    RelaxedEntries(nc, minCost, names, a, b, |names|);
    var cell := RelaxedCell(nc, minCost, names, a, b);
    if minCost[a, b].Some? {
      var best := minCost[a, b].value;
      assert best.name in cell;
      var v :| 0 <= v < |names| && v != a && names[v] == best.name;
      assert Relax(nc[a, v], minCost[v, b]) == Fin(best.cost);
    } else {
      forall v | 0 <= v < |names| && v != a
        ensures Relax(nc[a, v], minCost[v, b]) == Inf
      {
        assert names[v] in cell;
      }
    }
  }

  /**
   * The Bellman-Ford equation at a fixed point, second half: a best route
   * from a to b goes through a via of least total cost
   * neighborsCost[a][v] + minCost[v][b].
   */
  lemma ConvergedBestVia(nc: array2<int>, minCost: array2<Route>, names: seq<string>, table: array2<DistanceList>, a: nat, b: nat)
    requires Distinct(names) && Square(nc, |names|) && Square(minCost, |names|) && Square(table, |names|)
    requires Converged(nc, minCost, names, table) && ViaKeyed(table, names)
    requires a < |names| && b < |names| && a != b && minCost[a, b].Some?
    ensures exists v :: 0 <= v < |names| && v != a && names[v] == minCost[a, b].value.name &&
                        Relax(nc[a, v], minCost[v, b]) == Fin(minCost[a, b].value.cost)
    ensures forall v :: 0 <= v < |names| && v != a && Relax(nc[a, v], minCost[v, b]).Fin? ==>
              minCost[a, b].value.cost <= Relax(nc[a, v], minCost[v, b]).n
  {
    ConvergedCell(nc, minCost, names, table, a, b);
    RelaxedEntries(nc, minCost, names, a, b, |names|);
    var cell := RelaxedCell(nc, minCost, names, a, b);
    var best := minCost[a, b].value;
    assert best.name in cell;
    var v :| 0 <= v < |names| && v != a && names[v] == best.name;
    assert Relax(nc[a, v], minCost[v, b]) == Fin(best.cost);
    forall w | 0 <= w < |names| && w != a && Relax(nc[a, w], minCost[w, b]).Fin?
      ensures best.cost <= Relax(nc[a, w], minCost[w, b]).n
    {
      assert names[w] in cell;
    }
  }

  /** Where the node at new index a sat in the old index space, or -1 when it is new. */
  function OldIndex(newNames: seq<string>, oldIdx: map<string, nat>, a: nat): int
    requires a < |newNames|
  {
    if newNames[a] in oldIdx then oldIdx[newNames[a]] else -1
  }

  /** One old node's row of `mergeMinCost`: the inner loop over the old destinations. */
  method MergeRow(minCost: array2<Route>, oldNames: seq<string>, oldIdx: map<string, nat>,
                  newNames: seq<string>, newIdx: map<string, nat>, minCostUpdate: array2<Route>,
                  table: array2<DistanceList>, tableUpdate: array2<DistanceList>, p: nat)
    requires Numbering(oldNames, oldIdx) && Numbering(newNames, newIdx) && oldIdx.Keys <= newIdx.Keys
    requires Square(minCost, |oldNames|) && Square(table, |oldNames|)
    requires Square(minCostUpdate, |newNames|) && Square(tableUpdate, |newNames|)
    requires minCostUpdate != minCost && tableUpdate != table && p < |oldNames|
    modifies minCostUpdate, tableUpdate
    ensures forall a, b :: 0 <= a < |newNames| && 0 <= b < |newNames| ==>
              minCostUpdate[a, b] ==
                if OldIndex(newNames, oldIdx, a) == p && OldIndex(newNames, oldIdx, b) >= 0
                then minCost[p, OldIndex(newNames, oldIdx, b)]
                else old(minCostUpdate[a, b])
    ensures forall a, b :: 0 <= a < |newNames| && 0 <= b < |newNames| ==>
              tableUpdate[a, b] ==
                if OldIndex(newNames, oldIdx, a) == p && OldIndex(newNames, oldIdx, b) >= 0
                then table[p, OldIndex(newNames, oldIdx, b)]
                else old(tableUpdate[a, b])
  {
    var row := newIdx[oldNames[p]];
    for q := 0 to |oldNames|
      invariant forall a, b :: 0 <= a < |newNames| && 0 <= b < |newNames| ==>
                  minCostUpdate[a, b] ==
                    if OldIndex(newNames, oldIdx, a) == p && 0 <= OldIndex(newNames, oldIdx, b) < q
                    then minCost[p, OldIndex(newNames, oldIdx, b)]
                    else old(minCostUpdate[a, b])
      invariant forall a, b :: 0 <= a < |newNames| && 0 <= b < |newNames| ==>
                  tableUpdate[a, b] ==
                    if OldIndex(newNames, oldIdx, a) == p && 0 <= OldIndex(newNames, oldIdx, b) < q
                    then table[p, OldIndex(newNames, oldIdx, b)]
                    else old(tableUpdate[a, b])
    {
      var col := newIdx[oldNames[q]];
      assert OldIndex(newNames, oldIdx, col) == q;
      minCostUpdate[row, col] := minCost[p, q];
      tableUpdate[row, col] := table[p, q];
    }
  }

  /**
   * `mergeMinCost`: for every pair of old nodes, copies their best route and
   * distance list from the old grids into the new grids at their new indices.
   * Cells involving a node the old index space does not have keep what they held.
   */
  method MergeMinCost(minCost: array2<Route>, oldNames: seq<string>, oldIdx: map<string, nat>,
                      newNames: seq<string>, newIdx: map<string, nat>, minCostUpdate: array2<Route>,
                      table: array2<DistanceList>, tableUpdate: array2<DistanceList>)
    requires Numbering(oldNames, oldIdx) && Numbering(newNames, newIdx) && oldIdx.Keys <= newIdx.Keys
    requires Square(minCost, |oldNames|) && Square(table, |oldNames|)
    requires Square(minCostUpdate, |newNames|) && Square(tableUpdate, |newNames|)
    requires minCostUpdate != minCost && tableUpdate != table
    modifies minCostUpdate, tableUpdate
    ensures forall a, b :: 0 <= a < |newNames| && 0 <= b < |newNames| ==>
              minCostUpdate[a, b] ==
                if OldIndex(newNames, oldIdx, a) >= 0 && OldIndex(newNames, oldIdx, b) >= 0
                then minCost[OldIndex(newNames, oldIdx, a), OldIndex(newNames, oldIdx, b)]
                else old(minCostUpdate[a, b])
    ensures forall a, b :: 0 <= a < |newNames| && 0 <= b < |newNames| ==>
              tableUpdate[a, b] ==
                if OldIndex(newNames, oldIdx, a) >= 0 && OldIndex(newNames, oldIdx, b) >= 0
                then table[OldIndex(newNames, oldIdx, a), OldIndex(newNames, oldIdx, b)]
                else old(tableUpdate[a, b])
  {
    for p := 0 to |oldNames|
      invariant forall a, b :: 0 <= a < |newNames| && 0 <= b < |newNames| ==>
                  minCostUpdate[a, b] ==
                    if 0 <= OldIndex(newNames, oldIdx, a) < p && OldIndex(newNames, oldIdx, b) >= 0
                    then minCost[OldIndex(newNames, oldIdx, a), OldIndex(newNames, oldIdx, b)]
                    else old(minCostUpdate[a, b])
      invariant forall a, b :: 0 <= a < |newNames| && 0 <= b < |newNames| ==>
                  tableUpdate[a, b] ==
                    if 0 <= OldIndex(newNames, oldIdx, a) < p && OldIndex(newNames, oldIdx, b) >= 0
                    then table[OldIndex(newNames, oldIdx, a), OldIndex(newNames, oldIdx, b)]
                    else old(tableUpdate[a, b])
    {
      MergeRow(minCost, oldNames, oldIdx, newNames, newIdx, minCostUpdate, table, tableUpdate, p);
    }
  }

  /** Every node's best route to itself is (itself, 0). */
  ghost predicate SelfRoutes(minCost: array2<Route>, names: seq<string>)
    reads minCost
    requires Square(minCost, |names|)
  {
    forall a :: 0 <= a < |names| ==> minCost[a, a] == Some(Neighbor(names[a], 0))
  }

  /** Empty lists and no routes off the diagonal: the state before the first round. */
  lemma InitialConsistent(table: array2<DistanceList>, minCost: array2<Route>, names: seq<string>)
    requires Square(table, |names|) && Square(minCost, |names|)
    requires forall a, b :: 0 <= a < |names| && 0 <= b < |names| ==> table[a, b] == map[]
    requires forall a, b :: 0 <= a < |names| && 0 <= b < |names| && a != b ==> minCost[a, b] == None
    ensures Consistent(table, minCost, |names|) && ViaKeyed(table, names)
  {
  }

  /**
   * The set-up shared by both computations of `main`: grids of the new size
   * with no direct links, no routes and no lists, then `getTables`.
   */
  method SeedTables(g: Graph, names: seq<string>, idx: map<string, nat>)
    returns (nc: array2<int>, minCost: array2<Route>, table: array2<DistanceList>)
    requires g.Valid() && idx.Keys == g.adj.Keys && Numbering(names, idx)
    ensures fresh(nc) && fresh(minCost) && fresh(table)
    ensures Square(nc, |names|) && Square(minCost, |names|) && Square(table, |names|)
    ensures forall a, b :: 0 <= a < |names| && 0 <= b < |names| ==>
              nc[a, b] == LastCost(g.adj[names[a]], names[b], NoEdge)
    ensures SelfRoutes(minCost, names)
    ensures forall a, b :: 0 <= a < |names| && 0 <= b < |names| && a != b ==> minCost[a, b] == None
    ensures forall a, b :: 0 <= a < |names| && 0 <= b < |names| ==> table[a, b] == map[]
  {
    var n := |names|;
    nc := new int[n, n]((_, _) => NoEdge);
    minCost := new Route[n, n]((_, _) => None);
    table := new DistanceList[n, n]((_, _) => map[]);
    GetTables(nc, minCost, names, idx, g);
  }

  /**
   * The first computation of `main`: numbers the nodes, seeds the grids and
   * runs rounds until convergence or until `fuel` rounds have run.
   */
  method Converge(g: Graph, fuel: nat)
    returns (names: seq<string>, idx: map<string, nat>, nc: array2<int>, minCost: array2<Route>,
             table: array2<DistanceList>, converged: bool, rounds: nat)
    requires g.Valid()
    ensures StrictlySorted(names) && Numbering(names, idx) && idx.Keys == g.adj.Keys
    ensures Square(nc, |names|) && Square(minCost, |names|) && Square(table, |names|)
    ensures forall a, b :: 0 <= a < |names| && 0 <= b < |names| ==>
              nc[a, b] == LastCost(g.adj[names[a]], names[b], NoEdge)
    ensures SelfRoutes(minCost, names)
    ensures Consistent(table, minCost, |names|) && ViaKeyed(table, names)
    ensures rounds <= fuel && (converged || rounds == fuel)
    ensures converged ==> Converged(nc, minCost, names, table)
  {
    idx, names := NeighborToIndex(g);
    NumberingDistinct(names, idx);
    nc, minCost, table := SeedTables(g, names, idx);
    InitialConsistent(table, minCost, names);
    converged, rounds := Execute(nc, minCost, names, table, fuel);
  }

  /** One topology edit: the two endpoints and the weight (-1 removes the edge). */
  datatype Edit = Edit(source: string, neighbor: string, weight: int)

  /** The nodes that a sequence of edits adds to the graph: both endpoints of every non-removal edit. */
  ghost function Added(edits: seq<Edit>): set<string>
  {
    if edits == [] then {}
    else
      var last := edits[|edits| - 1];
      Added(edits[..|edits| - 1]) + (if last.weight == RemoveWeight then {} else {last.source, last.neighbor})
  }

  /** The lists after applying `edits` in order to `adj`, one `Edited` step each. */
  ghost function Applied(adj: map<string, seq<Neighbor>>, edits: seq<Edit>): map<string, seq<Neighbor>>
  {
    if edits == [] then adj
    else
      var last := edits[|edits| - 1];
      Edited(Applied(adj, edits[..|edits| - 1]), last.source, last.neighbor, last.weight)
  }

  /**
   * The edit loop of `main`: applies `UpdateEdge` for each edit in turn. Stops
   * with `ok` false at a removal that names a missing node (where the
   * source throws). Edits never delete a node.
   */
  method ApplyEdits(g: Graph, edits: seq<Edit>) returns (ok: bool)
    requires g.Valid()
    modifies g
    ensures g.Valid()
    ensures old(g.adj).Keys <= g.adj.Keys
    ensures ok ==> g.adj.Keys == old(g.adj).Keys + Added(edits)
    ensures ok ==> g.adj == Applied(old(g.adj), edits)
  {
    ok := true;
    var i := 0;
    while i < |edits| && ok
      invariant 0 <= i <= |edits|
      invariant g.Valid()
      invariant g.adj.Keys == old(g.adj).Keys + Added(edits[..i])
      invariant ok ==> g.adj == Applied(old(g.adj), edits[..i])
      invariant old(g.adj).Keys <= g.adj.Keys
    {
      assert edits[..i + 1][..i] == edits[..i];
      ok := g.UpdateEdge(edits[i].source, edits[i].neighbor, edits[i].weight);
      i := i + 1;
    }
    if ok {
      assert edits[..i] == edits;
    }
  }

  /**
   * Re-merged old routes: after the copy, a pair of old nodes holds its old
   * route and list, a pair with a new node holds none (or (node, 0) on the
   * diagonal), so a consistent, via-keyed old state gives a consistent,
   * via-keyed new one.
   */
  lemma MergedConsistent(minCost: array2<Route>, oldNames: seq<string>, oldIdx: map<string, nat>,
                         newNames: seq<string>, minCostUpdate: array2<Route>,
                         table: array2<DistanceList>, tableUpdate: array2<DistanceList>)
    requires Numbering(oldNames, oldIdx) && Distinct(newNames)
    requires forall k :: k in oldIdx ==> k in newNames
    requires Square(minCost, |oldNames|) && Square(table, |oldNames|)
    requires Square(minCostUpdate, |newNames|) && Square(tableUpdate, |newNames|)
    requires Consistent(table, minCost, |oldNames|) && ViaKeyed(table, oldNames)
    requires forall a, b :: 0 <= a < |newNames| && 0 <= b < |newNames| && a != b ==>
               if OldIndex(newNames, oldIdx, a) >= 0 && OldIndex(newNames, oldIdx, b) >= 0
               then minCostUpdate[a, b] == minCost[OldIndex(newNames, oldIdx, a), OldIndex(newNames, oldIdx, b)] &&
                    tableUpdate[a, b] == table[OldIndex(newNames, oldIdx, a), OldIndex(newNames, oldIdx, b)]
               else minCostUpdate[a, b] == None && tableUpdate[a, b] == map[]
    ensures Consistent(tableUpdate, minCostUpdate, |newNames|) && ViaKeyed(tableUpdate, newNames)
  {
    forall a, b | 0 <= a < |newNames| && 0 <= b < |newNames| && a != b &&
                  OldIndex(newNames, oldIdx, a) >= 0 && OldIndex(newNames, oldIdx, b) >= 0
      ensures IsMin(tableUpdate[a, b], minCostUpdate[a, b]) && tableUpdate[a, b].Keys <= Vias(newNames, a)
    {
      var p, q := OldIndex(newNames, oldIdx, a), OldIndex(newNames, oldIdx, b);
      assert p != q;
      forall k | k in tableUpdate[a, b]
        ensures k in Vias(newNames, a)
      {
        assert k in Vias(oldNames, p);
        var v :| 0 <= v < |oldNames| && v != p && oldNames[v] == k;
        var w :| 0 <= w < |newNames| && newNames[w] == k;
        assert w != a;
      }
    }
  }

  /** After the copy, every node still has the route (itself, 0) to itself. */
  lemma MergedSelfRoutes(minCost: array2<Route>, oldNames: seq<string>, oldIdx: map<string, nat>,
                         newNames: seq<string>, minCostUpdate: array2<Route>)
    requires Numbering(oldNames, oldIdx)
    requires Square(minCost, |oldNames|) && Square(minCostUpdate, |newNames|)
    requires SelfRoutes(minCost, oldNames)
    requires forall a :: 0 <= a < |newNames| ==>
               minCostUpdate[a, a] ==
                 if OldIndex(newNames, oldIdx, a) >= 0
                 then minCost[OldIndex(newNames, oldIdx, a), OldIndex(newNames, oldIdx, a)]
                 else Some(Neighbor(newNames[a], 0))
    ensures SelfRoutes(minCostUpdate, newNames)
  {
    forall a | 0 <= a < |newNames| && OldIndex(newNames, oldIdx, a) >= 0
      ensures minCostUpdate[a, a] == Some(Neighbor(newNames[a], 0))
    {
      assert oldNames[OldIndex(newNames, oldIdx, a)] == newNames[a];
    }
  }

  /**
   * The set-up of the re-computation of `main` after edits: numbers the nodes
   * of the edited graph, seeds fresh grids from it and copies the old best
   * routes and lists into them with `mergeMinCost`. Old nodes must still
   * exist, as edits never delete one.
   */
  method Reseed(g: Graph, oldNames: seq<string>, oldIdx: map<string, nat>, minCost: array2<Route>,
                table: array2<DistanceList>)
    returns (names: seq<string>, idx: map<string, nat>, nc: array2<int>, minCostUpdate: array2<Route>,
             tableUpdate: array2<DistanceList>)
    requires g.Valid() && Numbering(oldNames, oldIdx) && oldIdx.Keys <= g.adj.Keys
    requires Square(minCost, |oldNames|) && Square(table, |oldNames|)
    ensures fresh(nc) && fresh(minCostUpdate) && fresh(tableUpdate)
    ensures StrictlySorted(names) && Numbering(names, idx) && idx.Keys == g.adj.Keys
    ensures Square(nc, |names|) && Square(minCostUpdate, |names|) && Square(tableUpdate, |names|)
    ensures forall a, b :: 0 <= a < |names| && 0 <= b < |names| ==>
              nc[a, b] == LastCost(g.adj[names[a]], names[b], NoEdge)
    ensures forall a, b :: 0 <= a < |names| && 0 <= b < |names| &&
                           OldIndex(names, oldIdx, a) >= 0 && OldIndex(names, oldIdx, b) >= 0 ==>
              minCostUpdate[a, b] == minCost[OldIndex(names, oldIdx, a), OldIndex(names, oldIdx, b)] &&
              tableUpdate[a, b] == table[OldIndex(names, oldIdx, a), OldIndex(names, oldIdx, b)]
    ensures forall a, b :: 0 <= a < |names| && 0 <= b < |names| &&
                           (OldIndex(names, oldIdx, a) < 0 || OldIndex(names, oldIdx, b) < 0) ==>
              minCostUpdate[a, b] == (if a == b then Some(Neighbor(names[a], 0)) else None) &&
              tableUpdate[a, b] == map[]
    ensures SelfRoutes(minCost, oldNames) ==> SelfRoutes(minCostUpdate, names)
    ensures Consistent(table, minCost, |oldNames|) && ViaKeyed(table, oldNames) ==>
              Consistent(tableUpdate, minCostUpdate, |names|) && ViaKeyed(tableUpdate, names)
  {
    idx, names := NeighborToIndex(g);
    nc, minCostUpdate, tableUpdate := SeedTables(g, names, idx);
    MergeMinCost(minCost, oldNames, oldIdx, names, idx, minCostUpdate, table, tableUpdate);
    if SelfRoutes(minCost, oldNames) {
      MergedSelfRoutes(minCost, oldNames, oldIdx, names, minCostUpdate);
    }
    if Consistent(table, minCost, |oldNames|) && ViaKeyed(table, oldNames) {
      NumberingDistinct(names, idx);
      MergedConsistent(minCost, oldNames, oldIdx, names, minCostUpdate, table, tableUpdate);
    }
  }

  /** The re-computation of `main` after edits: re-seeding, then rounds until convergence or `fuel` rounds. */
  method Reconverge(g: Graph, oldNames: seq<string>, oldIdx: map<string, nat>, minCost: array2<Route>,
                    table: array2<DistanceList>, fuel: nat)
    returns (names: seq<string>, idx: map<string, nat>, nc: array2<int>, minCostUpdate: array2<Route>,
             tableUpdate: array2<DistanceList>, converged: bool, rounds: nat)
    requires g.Valid() && Numbering(oldNames, oldIdx) && oldIdx.Keys <= g.adj.Keys
    requires Square(minCost, |oldNames|) && Square(table, |oldNames|)
    ensures StrictlySorted(names) && Numbering(names, idx) && idx.Keys == g.adj.Keys
    ensures Square(nc, |names|) && Square(minCostUpdate, |names|) && Square(tableUpdate, |names|)
    ensures forall a, b :: 0 <= a < |names| && 0 <= b < |names| ==>
              nc[a, b] == LastCost(g.adj[names[a]], names[b], NoEdge)
    ensures SelfRoutes(minCost, oldNames) ==> SelfRoutes(minCostUpdate, names)
    ensures rounds <= fuel && (converged || rounds == fuel)
    ensures Consistent(table, minCost, |oldNames|) && ViaKeyed(table, oldNames) ==>
              Consistent(tableUpdate, minCostUpdate, |names|) && ViaKeyed(tableUpdate, names) &&
              (converged ==> Converged(nc, minCostUpdate, names, tableUpdate))
  {
    names, idx, nc, minCostUpdate, tableUpdate := Reseed(g, oldNames, oldIdx, minCost, table);
    NumberingDistinct(names, idx);
    converged, rounds := Execute(nc, minCostUpdate, names, tableUpdate, fuel);
  }
}
