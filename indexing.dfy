/**
 * Index assignment: the node names, sorted, numbered densely from 0, so that
 * every route table can be an N x N array.
 */
module Indexing {
  import opened Ordering
  import opened Topology

  /** Strictly increasing under the name order (hence without repeats). */
  ghost predicate StrictlySorted(s: seq<string>)
  {
    forall p, q :: 0 <= p < q < |s| ==> Less(s[p], s[q])
  }

  /** No name occurs twice. */
  ghost predicate Distinct(names: seq<string>)
  {
    forall p, q :: 0 <= p < q < |names| ==> names[p] != names[q]
  }

  /**
   * `idx` numbers the names of `names` by their position: the map and the
   * sequence are inverse to each other.
   */
  ghost predicate Numbering(names: seq<string>, idx: map<string, nat>)
  {
    && (forall k :: k in idx ==> idx[k] < |names| && names[idx[k]] == k)
    && (forall p :: 0 <= p < |names| ==> names[p] in idx && idx[names[p]] == p)
  }

  /** Only a sequence without repeats can be numbered by position. */
  lemma NumberingDistinct(names: seq<string>, idx: map<string, nat>)
    requires Numbering(names, idx)
    ensures Distinct(names)
  {
  }

  /** A numbering of sorted names puts a smaller name at a smaller index, and conversely. */
  lemma NumberingOrder(names: seq<string>, idx: map<string, nat>)
    requires StrictlySorted(names) && Numbering(names, idx)
    ensures forall a, b :: a in idx && b in idx ==> (Less(a, b) <==> idx[a] < idx[b])
  {
    forall a, b | a in idx && b in idx
      ensures Less(a, b) <==> idx[a] < idx[b]
    {
      if idx[a] == idx[b] {
        LessIrreflexive(a);
      } else if idx[b] < idx[a] {
        LessAsymmetric(b, a);
      }
    }
  }

  /** The least name of a non-empty set, found by one pass over the set. */
  method LeastName(pool: set<string>) returns (m: string)
    requires pool != {}
    ensures m in pool
    ensures forall k :: k in pool && k != m ==> Less(m, k)
  {
    m :| m in pool;
    var todo := pool - {m};
    while todo != {}
      invariant todo <= pool && m in pool && m !in todo
      invariant forall k :: k in pool - todo && k != m ==> Less(m, k)
      decreases |todo|
    {
      var k :| k in todo;
      LessTotal(k, m);
      if Less(k, m) {
        forall d | d in pool - todo && d != k
          ensures Less(k, d)
        {
          if d != m {
            LessTransitive(k, m, d);
          }
        }
        m := k;
      }
      todo := todo - {k};
    }
  }

  /** `Collections.sort` on the set of node names. */
  method SortNames(keys: set<string>) returns (sorted: seq<string>)
    ensures StrictlySorted(sorted)
    ensures forall k :: k in sorted <==> k in keys
    ensures |sorted| == |keys|
  {
    sorted := [];
    var rest := keys;
    while rest != {}
      invariant rest <= keys
      invariant StrictlySorted(sorted)
      invariant forall k :: k in keys <==> k in sorted || k in rest
      invariant forall k :: k in sorted ==> k !in rest
      invariant forall p, k :: 0 <= p < |sorted| && k in rest ==> Less(sorted[p], k)
      invariant |sorted| + |rest| == |keys|
      decreases |rest|
    {
      var m := LeastName(rest);
      forall p, k | 0 <= p < |sorted| && k in rest - {m}
        ensures Less(sorted[p], k)
      {
        LessTransitive(sorted[p], m, k);
      }
      sorted := sorted + [m];
      rest := rest - {m};
    }
  }

  /** The numbering loop of `getNeighborToIndex`: the name at position p gets index p. */
  method NumberNames(names: seq<string>) returns (idx: map<string, nat>)
    requires StrictlySorted(names)
    ensures Numbering(names, idx)
  {
    idx := map[];
    for p := 0 to |names|
      invariant forall k :: k in idx ==> idx[k] < p && names[idx[k]] == k
      invariant forall q :: 0 <= q < p ==> names[q] in idx && idx[names[q]] == q
    {
      forall q | 0 <= q < p
        ensures names[q] != names[p]
      {
        LessIrreflexive(names[p]);
      }
      idx := idx[names[p] := p];
    }
  }

  /**
   * `getNeighborToIndex`: sorts the graph's node names and numbers them
   * 0..N-1 in that order. Also returns the sorted names, which give the
   * inverse of the numbering.
   */
  method NeighborToIndex(g: Graph) returns (idx: map<string, nat>, names: seq<string>)
    ensures idx.Keys == g.adj.Keys && |names| == |g.adj.Keys|
    ensures StrictlySorted(names) && Numbering(names, idx)
    ensures forall a, b :: a in idx && b in idx ==> (Less(a, b) <==> idx[a] < idx[b])
  {
    names := SortNames(g.adj.Keys);
    idx := NumberNames(names);
    NumberingOrder(names, idx);
    assert forall k :: k in idx <==> k in g.adj;
  }
}
