/**
 * The per-(node, destination) distance lists and the choice of the best
 * next hop among them (`DistanceList` and `getMin` of the source).
 */
module DistanceLists {
  import opened Ordering
  import opened Topology

  datatype Option<T> = None | Some(value: T)

  /** A cost as the distance lists store it: a number, or the token "INF". */
  datatype Cost = Fin(n: int) | Inf

  /** For one (node, destination) pair: via-neighbour name to the cost through it. */
  type DistanceList = map<string, Cost>

  /** A best route: next hop and total cost, or `None` for no route (the source's `null`). */
  type Route = Option<Neighbor>

  /**
   * `r` is the route `getMin` must pick from `list`: none when every entry
   * is infinite; otherwise an entry of least cost, and among those of least
   * cost the one with the smallest name.
   */
  ghost predicate IsMin(list: DistanceList, r: Route)
  {
    match r
    case None => forall k :: k in list ==> list[k] == Inf
    case Some(best) =>
      && best.name in list && list[best.name] == Fin(best.cost)
      && forall k :: k in list && list[k].Fin? ==>
           best.cost < list[k].n || (best.cost == list[k].n && (k == best.name || Less(best.name, k)))
  }

  /** At most one route satisfies `IsMin`, so the order in which `getMin` visits the entries does not matter. */
  lemma IsMinUnique(list: DistanceList, r1: Route, r2: Route)
    requires IsMin(list, r1) && IsMin(list, r2)
    ensures r1 == r2
  {
    if r1.Some? && r2.Some? && r1.value.name != r2.value.name {
      LessAsymmetric(r1.value.name, r2.value.name);
    }
  }

  /**
   * The loop state of `getMin` after visiting the entries `seen`: `min` is
   * infinite while every visited entry is, and otherwise the least visited
   * finite cost, held by `minName`, the smallest name among those holding it.
   */
  ghost predicate BestSoFar(list: DistanceList, seen: set<string>, min: Cost, minName: string)
  {
    && seen <= list.Keys
    && (min == Inf <==> forall k :: k in seen ==> list[k] == Inf)
    && (min.Fin? ==> minName in seen && list[minName] == min)
    && (min.Fin? ==> forall k :: k in seen && list[k].Fin? ==>
          min.n < list[k].n || (min.n == list[k].n && (k == minName || Less(minName, k))))
  }

  /** Visiting an infinite entry changes nothing. */
  lemma VisitInf(list: DistanceList, seen: set<string>, min: Cost, minName: string, key: string)
    requires BestSoFar(list, seen, min, minName) && key in list && list[key] == Inf
    ensures BestSoFar(list, seen + {key}, min, minName)
  {
  }

  /** Visiting a strictly cheaper finite entry makes it the best. */
  lemma VisitCheaper(list: DistanceList, seen: set<string>, min: Cost, minName: string, key: string)
    requires BestSoFar(list, seen, min, minName) && key in list && list[key].Fin?
    requires min == Inf || min.n > list[key].n
    ensures BestSoFar(list, seen + {key}, list[key], key)
  {
  }

  /** Visiting an entry of equal cost with a smaller name makes it the best. */
  lemma VisitTieSmaller(list: DistanceList, seen: set<string>, min: Cost, minName: string, key: string)
    requires BestSoFar(list, seen, min, minName) && key in list && min.Fin? && list[key] == min
    requires Less(key, minName)
    ensures BestSoFar(list, seen + {key}, min, key)
  {
    forall k | k in seen && list[k] == min && k != minName
      ensures Less(key, k)
    {
      LessTransitive(key, minName, k);
    }
  }

  /** Visiting any other finite entry leaves the best unchanged. */
  lemma VisitOther(list: DistanceList, seen: set<string>, min: Cost, minName: string, key: string)
    requires BestSoFar(list, seen, min, minName) && key in list && min.Fin? && list[key].Fin?
    requires min.n < list[key].n || (min.n == list[key].n && !Less(key, minName))
    ensures BestSoFar(list, seen + {key}, min, minName)
  {
    LessTotal(key, minName);
  }

  /**
   * `getMin`: one pass over the entries, in no particular order, keeping the
   * cheapest finite entry so far (ties to the smaller name) and counting the
   * infinite ones.
   */
  method GetMin(list: DistanceList) returns (r: Route)
    ensures IsMin(list, r)
    ensures r.None? <==> forall k :: k in list ==> list[k] == Inf
  {
    var min: Cost := Inf;  // no finite entry seen yet (the source starts from Integer.MAX_VALUE)
    var minName := "";
    var countInf := 0;
    var todo := list.Keys;
    ghost var seen: set<string> := {};
    while todo != {}
      invariant todo <= list.Keys && seen <= list.Keys
      invariant forall k :: k in list ==> (k in seen <==> k !in todo)
      invariant countInf <= |seen|
      invariant countInf == |seen| <==> forall k :: k in seen ==> list[k] == Inf
      invariant BestSoFar(list, seen, min, minName)
      decreases |todo|
    {
      var key :| key in todo;
      var value := list[key];
      if value == Inf {
        VisitInf(list, seen, min, minName, key);
        countInf := countInf + 1;
      } else if min == Inf || min.n > value.n {
        VisitCheaper(list, seen, min, minName, key);
        min := value;
        minName := key;
      } else if min.n == value.n {
        if Less(key, minName) {
          VisitTieSmaller(list, seen, min, minName, key);
          minName := key;
        } else {
          VisitOther(list, seen, min, minName, key);
        }
      } else {
        VisitOther(list, seen, min, minName, key);
      }
      seen := seen + {key};
      todo := todo - {key};
    }
    assert seen == list.Keys;
    if countInf == |list| {
      r := None;
    } else {
      r := Some(Neighbor(minName, min.n));
    }
  }
}
