/**
 * The network topology: every node owns a list of (neighbour, cost) links,
 * and an edge between two nodes is recorded in both nodes' lists.
 */
module Topology {

  /** One link of an adjacency list, and also (in the route tables) a next hop with its cost. */
  datatype Neighbor = Neighbor(name: string, cost: int)

  /** The weight that asks for an edge to be removed rather than added. */
  const RemoveWeight: int := -1

  /** A node's list, or the empty list when the node is unknown (`computeIfAbsent`). */
  function ListOf(adj: map<string, seq<Neighbor>>, node: string): seq<Neighbor>
  {
    if node in adj then adj[node] else []
  }

  /** The list with every link to `name` dropped, the others kept in their order. */
  function Without(list: seq<Neighbor>, name: string): (r: seq<Neighbor>)
    ensures |r| <= |list|
    decreases |list|
  {
    if list == [] then []
    else if list[0].name == name then Without(list[1..], name)
    else [list[0]] + Without(list[1..], name)
  }

  /** Exactly the links not naming `name` survive. */
  lemma {:induction false} WithoutMembers(list: seq<Neighbor>, name: string)
    ensures forall e :: e in Without(list, name) <==> e in list && e.name != name
    decreases |list|
  {
    if list != [] {
      WithoutMembers(list[1..], name);
      assert list == [list[0]] + list[1..];
    }
  }

  lemma {:induction false} WithoutConcat(a: seq<Neighbor>, b: seq<Neighbor>, name: string)
    ensures Without(a + b, name) == Without(a, name) + Without(b, name)
    decreases |a|
  {
    if a == [] {
      assert a + b == b;
    } else {
      assert (a + b)[1..] == a[1..] + b;
      WithoutConcat(a[1..], b, name);
    }
  }

  /** Removing the links to a name a second time changes nothing. */
  lemma {:induction false} WithoutIdempotent(list: seq<Neighbor>, name: string)
    ensures Without(Without(list, name), name) == Without(list, name)
    decreases |list|
  {
    if list != [] {
      WithoutIdempotent(list[1..], name);
    }
  }

  /**
   * Removal exactly as the index loop of `UpdateEdge` performs it: after
   * removing the link at position i the loop still advances i, so the link
   * that moved into position i is never examined.
   */
  function SkipRemove(list: seq<Neighbor>, name: string): (r: seq<Neighbor>)
    ensures |Without(list, name)| <= |r| <= |list|
    decreases |list|
  {
    if list == [] then []
    else if list[0].name != name then [list[0]] + SkipRemove(list[1..], name)
    else if |list| == 1 then []
    else [list[1]] + SkipRemove(list[2..], name)
  }

  /** No two consecutive links both name `name`. */
  ghost predicate NoAdjacentLinks(list: seq<Neighbor>, name: string)
  {
    forall p :: 0 <= p < |list| - 1 && list[p].name == name ==> list[p + 1].name != name
  }

  /** Two consecutive links to the same neighbour: the loop as written keeps the second. */
  lemma SkipRemoveKeepsDuplicate()
    ensures var list := [Neighbor("B", 1), Neighbor("B", 2)];
            SkipRemove(list, "B") == [Neighbor("B", 2)] && Without(list, "B") == []
  {
    var list := [Neighbor("B", 1), Neighbor("B", 2)];
    assert list[2..] == [];
    assert Without(list[1..], "B") == Without([Neighbor("B", 2)], "B");
  }

  /** Without two consecutive links to the removed neighbour, the loop as written removes all of them. */
  lemma {:induction false} SkipRemoveAgrees(list: seq<Neighbor>, name: string)
    requires NoAdjacentLinks(list, name)
    ensures SkipRemove(list, name) == Without(list, name)
    decreases |list|
  {
    if list != [] {
      if list[0].name != name {
        SkipRemoveAgrees(list[1..], name);
      } else if |list| > 1 {
        assert list[1].name != name;
        assert list[1..][1..] == list[2..];
        SkipRemoveAgrees(list[2..], name);
      }
    }
  }

  /** In particular, a list that links to `name` at most once loses exactly that link. */
  lemma SkipRemoveSingle(list: seq<Neighbor>, name: string)
    requires forall p, q :: 0 <= p < q < |list| && list[p].name == name ==> list[q].name != name
    ensures SkipRemove(list, name) == Without(list, name)
  {
    SkipRemoveAgrees(list, name);
  }

  /** One pass of the loop as written, at a link that is removed. */
  lemma SkipStepRemoved(r: seq<Neighbor>, i: nat, name: string)
    requires i < |r| && r[i].name == name
    ensures var r' := r[..i] + r[i + 1..];
            && (i + 1 <= |r'| ==> r'[..i + 1] + SkipRemove(r'[i + 1..], name) == r[..i] + SkipRemove(r[i..], name))
            && (i + 1 > |r'| ==> r' == r[..i] + SkipRemove(r[i..], name))
  {
    var r' := r[..i] + r[i + 1..];
    if i + 1 < |r| {
      assert r[i..][2..] == r[i + 2..] == r'[i + 1..];
      assert r'[..i + 1] == r[..i] + [r[i + 1]];
    } else {
      assert r' == r[..i];
    }
  }

  /** One pass of the loop as written, at a link that is kept. */
  lemma SkipStepKept(r: seq<Neighbor>, i: nat, name: string)
    requires i < |r| && r[i].name != name
    ensures r[..i + 1] + SkipRemove(r[i + 1..], name) == r[..i] + SkipRemove(r[i..], name)
  {
    assert r[i..][1..] == r[i + 1..];
    assert r[..i + 1] == r[..i] + [r[i]];
  }

  /** The removal loop of `UpdateEdge` as written (index always advances). */
  method RemoveSkipping(list: seq<Neighbor>, name: string) returns (r: seq<Neighbor>)
    ensures r == SkipRemove(list, name)
  {
    r := list;
    var i := 0;
    while i < |r|
      invariant 0 <= i <= |r| + 1
      invariant i <= |r| ==> r[..i] + SkipRemove(r[i..], name) == SkipRemove(list, name)
      invariant i == |r| + 1 ==> r == SkipRemove(list, name)
      decreases |r| + 1 - i
    {
      if r[i].name == name {
        SkipStepRemoved(r, i, name);
        r := r[..i] + r[i + 1..];
      } else {
        SkipStepKept(r, i, name);
      }
      i := i + 1;
    }
    if i == |r| {
      assert r[i..] == [] && r[..i] == r;
    }
  }

  /** Filtering one more link of `list` appends that link unless it names `name`. */
  lemma WithoutSnoc(list: seq<Neighbor>, k: nat, name: string)
    requires k < |list|
    ensures Without(list[..k + 1], name) == Without(list[..k], name) + (if list[k].name == name then [] else [list[k]])
  {
    assert list[..k + 1] == list[..k] + [list[k]];
    WithoutConcat(list[..k], [list[k]], name);
    assert [list[k]][1..] == [];
  }

  /** The removal loop with the skip corrected: the index advances only past kept links. */
  method RemoveAll(list: seq<Neighbor>, name: string) returns (r: seq<Neighbor>)
    ensures r == Without(list, name)
  {
    r := list;
    var i := 0;
    ghost var k := 0;
    while i < |r|
      invariant 0 <= k <= |list| && 0 <= i <= |r|
      invariant r[..i] == Without(list[..k], name)
      invariant r[i..] == list[k..]
      decreases |r| - i
    {
      WithoutSnoc(list, k, name);
      if r[i].name == name {
        r := r[..i] + r[i + 1..];
      } else {
        assert r[..i + 1] == r[..i] + [r[i]];
        i := i + 1;
      }
      k := k + 1;
    }
    assert list[..k] == list;
  }

  /** `after` is `before` with the edge (source, neighbor, weight) appended to both endpoints' lists. */
  ghost predicate Linked(before: map<string, seq<Neighbor>>, after: map<string, seq<Neighbor>>,
                         source: string, neighbor: string, weight: int)
  {
    && after.Keys == before.Keys + {source, neighbor}
    && (source != neighbor ==>
          && after[source] == ListOf(before, source) + [Neighbor(neighbor, weight)]
          && after[neighbor] == ListOf(before, neighbor) + [Neighbor(source, weight)])
    && (source == neighbor ==>
          after[source] == ListOf(before, source) + [Neighbor(source, weight), Neighbor(source, weight)])
    && forall k :: k in before && k != source && k != neighbor ==> after[k] == before[k]
  }

  /**
   * `after` is `before` with the links between source and neighbor removed from both
   * lists; `ok` is false when a list was missing (the source throws a
   * NullPointerException there, after having already edited the source's list).
   */
  ghost predicate Unlinked(before: map<string, seq<Neighbor>>, after: map<string, seq<Neighbor>>,
                           source: string, neighbor: string, ok: bool)
  {
    && ok == (source in before && neighbor in before)
    && after.Keys == before.Keys
    && (source !in before ==> after == before)
    && (source in before ==> after[source] == Without(before[source], neighbor))
    && (ok ==> after[neighbor] == Without(before[neighbor], source))
    && forall k :: k in before && k != source && k != neighbor ==> after[k] == before[k]
  }

  /**
   * The lists one `UpdateEdge` leaves, with the corrected removal: a weight
   * other than -1 appends the edge to both endpoints' lists; -1 drops the links
   * from the source's list and then, if the neighbour has a list, from it.
   */
  ghost function Edited(adj: map<string, seq<Neighbor>>, source: string, neighbor: string, weight: int): map<string, seq<Neighbor>>
  {
    if weight != RemoveWeight then
      var added := adj[source := ListOf(adj, source) + [Neighbor(neighbor, weight)]];
      added[neighbor := ListOf(added, neighbor) + [Neighbor(source, weight)]]
    else if source !in adj then adj
    else
      var cut := adj[source := Without(adj[source], neighbor)];
      if neighbor !in cut then cut else cut[neighbor := Without(cut[neighbor], source)]
  }

  /** An edit appends the edge to both ends, or removes the links between them as `Unlinked` describes. */
  lemma EditedMeaning(adj: map<string, seq<Neighbor>>, source: string, neighbor: string, weight: int)
    ensures weight != RemoveWeight ==> Linked(adj, Edited(adj, source, neighbor, weight), source, neighbor, weight)
    ensures weight == RemoveWeight ==>
              Unlinked(adj, Edited(adj, source, neighbor, weight), source, neighbor, source in adj && neighbor in adj)
  {
    if weight != RemoveWeight && source == neighbor {
      var before := ListOf(adj, source);
      assert before + [Neighbor(source, weight)] + [Neighbor(source, weight)] ==
             before + [Neighbor(source, weight), Neighbor(source, weight)];
    }
    if weight == RemoveWeight && source == neighbor && source in adj {
      WithoutIdempotent(adj[source], source);
    }
  }

  class Graph {
    var adj: map<string, seq<Neighbor>>

    /** Every link names a known node, and no stored link carries the removal weight. */
    ghost predicate Valid()
      reads this
    {
      forall k, e :: k in adj && e in adj[k] ==> e.name in adj && e.cost != RemoveWeight
    }

    constructor ()
      ensures Valid() && adj == map[]
    {
      adj := map[];
    }

    /** Registers a node with an empty list, replacing any list it had. */
    method AddNode(node: string)
      requires Valid()
      modifies this
      ensures Valid()
      ensures adj == old(adj)[node := []]
    {
      adj := adj[node := []];
    }

    /** Appends the edge to both endpoints, or removes it when the weight is the removal weight. */
    method AddEdge(source: string, neighbor: string, weight: int) returns (ok: bool)
      requires Valid()
      modifies this
      ensures Valid()
      ensures weight != RemoveWeight ==> ok && Linked(old(adj), adj, source, neighbor, weight)
      ensures weight == RemoveWeight ==> Unlinked(old(adj), adj, source, neighbor, ok)
      ensures adj == Edited(old(adj), source, neighbor, weight)
    {
      if weight != RemoveWeight {
        adj := adj[source := ListOf(adj, source) + [Neighbor(neighbor, weight)]];
        adj := adj[neighbor := ListOf(adj, neighbor) + [Neighbor(source, weight)]];
        ok := true;
      } else {
        ok := RemoveEdge(source, neighbor);
      }
    }

    /** Removes the edge when the weight is the removal weight, and otherwise adds it. */
    method UpdateEdge(source: string, neighbor: string, weight: int) returns (ok: bool)
      requires Valid()
      modifies this
      ensures Valid()
      ensures weight != RemoveWeight ==> ok && Linked(old(adj), adj, source, neighbor, weight)
      ensures weight == RemoveWeight ==> Unlinked(old(adj), adj, source, neighbor, ok)
      ensures adj == Edited(old(adj), source, neighbor, weight)
    {
      if weight == RemoveWeight {
        ok := RemoveEdge(source, neighbor);
      } else {
        ok := AddEdge(source, neighbor, weight);
      }
    }

    /** The removal branch of `UpdateEdge`, with the corrected removal loop. */
    method RemoveEdge(source: string, neighbor: string) returns (ok: bool)
      requires Valid()
      modifies this
      ensures Valid()
      ensures Unlinked(old(adj), adj, source, neighbor, ok)
      ensures adj == Edited(old(adj), source, neighbor, RemoveWeight)
    {
      if source !in adj {
        return false;
      }
      var kept := RemoveAll(adj[source], neighbor);
      WithoutMembers(adj[source], neighbor);
      adj := adj[source := kept];
      if neighbor !in adj {
        return false;
      }
      kept := RemoveAll(adj[neighbor], source);
      WithoutMembers(adj[neighbor], source);
      if neighbor == source {
        WithoutIdempotent(old(adj)[source], source);
      }
      adj := adj[neighbor := kept];
      ok := true;
    }
  }
}
