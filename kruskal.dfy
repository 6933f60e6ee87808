/** Kruskal's minimum spanning forest over the undirected `Graph`
    (Kruskal.java): the edge set of a graph, its sort by weight, and the
    union-find loop that keeps an edge only when it joins two trees. */
module Kruskal {
  import opened Wrappers
  import opened Graphs
  import opened UnionFinds
  import opened BreadthFirst
  import VertexSets

  /** `Kruskal.Edge`: an undirected edge with its endpoints in order. Two
      edges are `equals` when endpoints and weight agree, which is datatype
      equality. */
  datatype Edge = Edge(u: int, v: int, weight: Int32)

  /** The `Edge` constructor: the smaller endpoint is stored first. */
  function MakeEdge(u: int, v: int, weight: Int32): (e: Edge)
    ensures e.u <= e.v && e.weight == weight
    ensures (e.u == u && e.v == v) || (e.u == v && e.v == u)
  {
    if u > v then Edge(v, u, weight) else Edge(u, v, weight)
  }

  /** `compareTo`: `Integer.compare` of the two weights. */
  function CompareTo(a: Edge, b: Edge): (c: int)
    ensures c == -1 || c == 0 || c == 1
    ensures c < 0 <==> a.weight < b.weight
    ensures c > 0 <==> a.weight > b.weight
  {
    if a.weight < b.weight then -1 else if a.weight == b.weight then 0 else 1
  }

  /** `e` is the normalised form of an edge of the graph, carrying its weight. */
  ghost predicate EdgeOf(adj: seq<seq<UndirectedEdge>>, e: Edge)
  {
    e.u <= e.v && Adjacent(adj, e.u, e.v) && e.weight == EdgeWeight(adj, e.u, e.v)
  }

  /** Normalising both directions of an edge of a well-formed graph gives the
      same `Edge`, so `getEdges` never holds both. */
  lemma BothDirectionsAgree(adj: seq<seq<UndirectedEdge>>, a: int, b: int)
    requires WellFormed(adj) && Adjacent(adj, a, b)
    ensures Adjacent(adj, b, a)
    ensures MakeEdge(a, b, EdgeWeight(adj, a, b)) == MakeEdge(b, a, EdgeWeight(adj, b, a))
    ensures EdgeOf(adj, MakeEdge(a, b, EdgeWeight(adj, a, b)))
  {
  }

  /** `getEdges(g)`: one `Edge` per undirected edge of `g`. The neighbour set
      is visited in an arbitrary order, as a `HashSet` iterator does. */
  method GetEdges(g: Graph?) returns (r: Result<set<Edge>>)
    requires g != null ==> g.Valid()
    ensures g == null <==> r.Failure?
    ensures r.Failure? ==> r.error == IllegalArgument
    ensures r.Success? ==> g != null && forall e :: e in r.value <==> EdgeOf(g.adjLists, e)
  {
    if g == null {
      return Failure(IllegalArgument);
    }
    var ans: set<Edge> := {};
    var n := g.GetSize();
    for i := 0 to n
      invariant forall e :: e in ans ==> EdgeOf(g.adjLists, e)
      invariant forall a, b :: Adjacent(g.adjLists, a, b) && a < i ==>
                  MakeEdge(a, b, EdgeWeight(g.adjLists, a, b)) in ans
    {
      var nb := g.GetNeighbors(i);
      var neighbors := nb.value;
      while neighbors != {}
        invariant forall x :: x in neighbors ==> Adjacent(g.adjLists, i, x)
        invariant forall e :: e in ans ==> EdgeOf(g.adjLists, e)
        invariant forall a, b :: Adjacent(g.adjLists, a, b) && (a < i || (a == i && b !in neighbors)) ==>
                    MakeEdge(a, b, EdgeWeight(g.adjLists, a, b)) in ans
        decreases |neighbors|
      {
        assert exists y :: y in neighbors by {
          // a set with no member is empty
          assert (forall y :: y !in neighbors) ==> neighbors == {};
        }
        var x :| x in neighbors;
        neighbors := neighbors - {x};
        BothDirectionsAgree(g.adjLists, i, x);
        var wj := g.GetWeight(i, x);
        var wk := g.GetWeight(x, i);
        var j := MakeEdge(i, x, wj.value);
        var k := MakeEdge(x, i, wk.value);
        if j !in ans && k !in ans {
          ans := ans + {j};
        }
      }
    }
    forall e | EdgeOf(g.adjLists, e) ensures e in ans {
      assert MakeEdge(e.u, e.v, e.weight) == e;
    }
    return Success(ans);
  }

  /** `sortedEdges.addAll(edges)`: the set's elements, each once, in the
      iterator's arbitrary order. */
  method ToList(edges: set<Edge>) returns (s: seq<Edge>)
    ensures multiset(s) == multiset(edges)
  {
    s := [];
    var rest := edges;
    while rest != {}
      invariant rest <= edges
      invariant multiset(s) + multiset(rest) == multiset(edges)
      decreases |rest|
    {
      assert exists y :: y in rest by {
        // a set with no member is empty
        assert (forall y :: y !in rest) ==> rest == {};
      }
      var e :| e in rest;
      assert rest == (rest - {e}) + {e};
      s := s + [e];
      rest := rest - {e};
    }
  }

  /** The edges are in non-decreasing order of weight. */
  predicate SortedByWeight(s: seq<Edge>)
  {
    forall i, j :: 0 <= i < j < |s| ==> s[i].weight <= s[j].weight
  }

  /** `Collections.sort(sortedEdges)` with `compareTo`: a stable sort by
      weight, written as an insertion sort. */
  method Sort(s: seq<Edge>) returns (t: seq<Edge>)
    ensures SortedByWeight(t)
    ensures multiset(t) == multiset(s)
  {
    t := [];
    for k := 0 to |s|
      invariant SortedByWeight(t)
      invariant multiset(t) == multiset(s[..k])
    {
      var e := s[k];
      var j := |t|;
      while j > 0 && CompareTo(t[j - 1], e) > 0
        invariant 0 <= j <= |t|
        invariant forall m :: j <= m < |t| ==> t[m].weight > e.weight
      {
        j := j - 1;
      }
      InsertSorted(t, j, e);
      InsertKeepsOthers(t, j, e);
      assert s[..k + 1] == s[..k] + [e];
      t := t[..j] + [e] + t[j..];
    }
    assert s[..|s|] == s;
  }

  lemma InsertKeepsOthers(t: seq<Edge>, j: int, e: Edge)
    requires 0 <= j <= |t|
    ensures multiset(t[..j] + [e] + t[j..]) == multiset(t) + multiset{e}
  {
    assert t == t[..j] + t[j..];
  }

  /** Inserting `e` after every lighter-or-equal edge and before every
      heavier one keeps the list sorted and adds just `e`. */
  lemma InsertSorted(t: seq<Edge>, j: int, e: Edge)
    requires SortedByWeight(t) && 0 <= j <= |t|
    requires j > 0 ==> t[j - 1].weight <= e.weight
    requires forall m :: j <= m < |t| ==> t[m].weight > e.weight
    ensures SortedByWeight(t[..j] + [e] + t[j..])
  {
    var t' := t[..j] + [e] + t[j..];
    forall a, b | 0 <= a < b < |t'| ensures t'[a].weight <= t'[b].weight {
      if a < j && b == j {
        assert t'[a] == t[a];
        assert t[a].weight <= t[j - 1].weight;
      } else if a < j && b > j {
        assert t'[a] == t[a] && t'[b] == t[b - 1];
      } else if a == j {
        assert t'[b] == t[b - 1];
      } else if a > j {
        assert t'[a] == t[a - 1] && t'[b] == t[b - 1];
      }
    }
  }

  // ---------------------------------------------------------------------
  // Connectivity of the growing forest

  /** Every edge on the walk `p` weighs at most `w`. */
  ghost predicate LightWalk(adj: seq<seq<UndirectedEdge>>, p: seq<int>, w: int)
  {
    forall i :: 0 <= i < |p| - 1 ==> Adjacent(adj, p[i], p[i + 1]) && EdgeWeight(adj, p[i], p[i + 1]) <= w
  }

  /** The endpoints of `e` are joined in `adj` by a walk none of whose edges
      is heavier than `e`: the cycle condition of a minimum spanning forest. */
  ghost predicate Light(adj: seq<seq<UndirectedEdge>>, e: Edge)
  {
    exists p :: WalkFromTo(adj, p, e.u, e.v) && LightWalk(adj, p, e.weight)
  }

  /** The vertices reachable from `x`. */
  ghost function Component(adj: seq<seq<UndirectedEdge>>, x: int): set<int>
  {
    set y | 0 <= y < |adj| && Reachable(adj, x, y)
  }

  /** The connected components of the graph. */
  ghost function Components(adj: seq<seq<UndirectedEdge>>): set<set<int>>
  {
    set x | 0 <= x < |adj| :: Component(adj, x)
  }

  /** The undirected edges of the graph that are not self-loops, each once. */
  ghost function EdgePairs(adj: seq<seq<UndirectedEdge>>): set<(int, int)>
  {
    set a, b | 0 <= a < b < |adj| && Adjacent(adj, a, b) :: (a, b)
  }

  /** `adj2` is `adj` with the `u`-`v` edge of weight `w` added. */
  ghost predicate AddsArc(adj: seq<seq<UndirectedEdge>>, adj2: seq<seq<UndirectedEdge>>, u: int, v: int, w: int)
  {
    && |adj2| == |adj|
    && (forall a, b :: Adjacent(adj2, a, b) <==> Adjacent(adj, a, b) || (a == u && b == v) || (a == v && b == u))
    && (forall a, b :: Adjacent(adj, a, b) ==> EdgeWeight(adj2, a, b) == EdgeWeight(adj, a, b))
    && EdgeWeight(adj2, u, v) == w && EdgeWeight(adj2, v, u) == w
  }

  lemma ReachableRefl(adj: seq<seq<UndirectedEdge>>, a: int)
    requires 0 <= a < |adj|
    ensures Reachable(adj, a, a)
  {
    assert WalkFromTo(adj, [a], a, a);
  }

  lemma ReachableArc(adj: seq<seq<UndirectedEdge>>, a: int, b: int)
    requires Adjacent(adj, a, b)
    ensures Reachable(adj, a, b)
  {
    assert WalkFromTo(adj, [a, b], a, b);
  }

  /** Walks compose. */
  lemma ReachableTrans(adj: seq<seq<UndirectedEdge>>, a: int, b: int, c: int)
    requires Reachable(adj, a, b) && Reachable(adj, b, c)
    ensures Reachable(adj, a, c)
  {
    var p :| WalkFromTo(adj, p, a, b);
    var q :| WalkFromTo(adj, q, b, c);
    var s := p + q[1..];
    forall k | 0 <= k < |s| - 1 ensures Adjacent(adj, s[k], s[k + 1]) {
      if k < |p| - 1 {
        assert s[k] == p[k] && s[k + 1] == p[k + 1];
      } else {
        assert s[k] == q[k - |p| + 1] && s[k + 1] == q[k - |p| + 2];
      }
    }
    assert WalkFromTo(adj, s, a, c);
  }

  /** In a well-formed graph every walk can be walked backwards. */
  lemma ReachableSym(adj: seq<seq<UndirectedEdge>>, a: int, b: int)
    requires WellFormed(adj) && Reachable(adj, a, b)
    ensures Reachable(adj, b, a)
  {
    var p :| WalkFromTo(adj, p, a, b);
    var s := seq(|p|, i requires 0 <= i < |p| => p[|p| - 1 - i]);
    forall k | 0 <= k < |s| - 1 ensures Adjacent(adj, s[k], s[k + 1]) {
      assert Adjacent(adj, p[|p| - 2 - k], p[|p| - 1 - k]);
    }
    assert WalkFromTo(adj, s, b, a);
  }

  /** Walks of a graph are walks of any graph with more edges. */
  lemma ReachableGrows(adj: seq<seq<UndirectedEdge>>, adj2: seq<seq<UndirectedEdge>>, a: int, b: int)
    requires |adj2| == |adj| && forall x, y :: Adjacent(adj, x, y) ==> Adjacent(adj2, x, y)
    requires Reachable(adj, a, b)
    ensures Reachable(adj2, a, b)
  {
    var p :| WalkFromTo(adj, p, a, b);
    assert WalkFromTo(adj2, p, a, b);
  }

  /** A walk that uses the added edge splits at it into two old walks. */
  lemma {:induction false} SplitWalk(adj: seq<seq<UndirectedEdge>>, adj2: seq<seq<UndirectedEdge>>,
                                     u: int, v: int, w: int, p: seq<int>, x: int, y: int)
    requires AddsArc(adj, adj2, u, v, w) && WalkFromTo(adj2, p, x, y)
    ensures || Reachable(adj, x, y)
            || (Reachable(adj, x, u) && Reachable(adj, v, y))
            || (Reachable(adj, x, v) && Reachable(adj, u, y))
    decreases |p|
  {
    assert Adjacent(adj2, u, v);
    if |p| == 1 {
      ReachableRefl(adj, x);
    } else {
      var x1 := p[1];
      assert WalkFromTo(adj2, p[1..], x1, y);
      SplitWalk(adj, adj2, u, v, w, p[1..], x1, y);
      if Adjacent(adj, x, x1) {
        ReachableArc(adj, x, x1);
        if Reachable(adj, x1, y) { ReachableTrans(adj, x, x1, y); }
        if Reachable(adj, x1, u) { ReachableTrans(adj, x, x1, u); }
        if Reachable(adj, x1, v) { ReachableTrans(adj, x, x1, v); }
      } else if x == u && x1 == v {
        ReachableRefl(adj, u);
        if Reachable(adj, v, v) && Reachable(adj, u, y) { }
      } else {
        ReachableRefl(adj, v);
      }
    }
  }

  /** Reachability after adding the `u`-`v` edge: an old walk, or old walks
      to one end and from the other. */
  lemma ReachAfterAdd(adj: seq<seq<UndirectedEdge>>, adj2: seq<seq<UndirectedEdge>>,
                      u: int, v: int, w: int, x: int, y: int)
    requires AddsArc(adj, adj2, u, v, w)
    ensures Reachable(adj2, x, y) <==>
              || Reachable(adj, x, y)
              || (Reachable(adj, x, u) && Reachable(adj, v, y))
              || (Reachable(adj, x, v) && Reachable(adj, u, y))
  {
    if Reachable(adj2, x, y) {
      var p :| WalkFromTo(adj2, p, x, y);
      SplitWalk(adj, adj2, u, v, w, p, x, y);
    }
    if Reachable(adj, x, y) {
      ReachableGrows(adj, adj2, x, y);
    }
    if Reachable(adj, x, u) && Reachable(adj, v, y) {
      ReachableGrows(adj, adj2, x, u);
      ReachableGrows(adj, adj2, v, y);
      ReachableArc(adj2, u, v);
      ReachableTrans(adj2, x, u, v);
      ReachableTrans(adj2, x, v, y);
    }
    if Reachable(adj, x, v) && Reachable(adj, u, y) {
      ReachableGrows(adj, adj2, x, v);
      ReachableGrows(adj, adj2, u, y);
      ReachableArc(adj2, v, u);
      ReachableTrans(adj2, x, v, u);
      ReachableTrans(adj2, x, u, y);
    }
  }

  // ---------------------------------------------------------------------
  // Forests: every edge is a bridge

  /** `list` without its entries towards `d`. */
  function Without(list: seq<UndirectedEdge>, d: int): (r: seq<UndirectedEdge>)
    ensures forall i :: 0 <= i < |r| ==> r[i] in list && r[i].dest != d
  {
    if |list| == 0 then []
    else (if list[0].dest == d then [] else [list[0]]) + Without(list[1..], d)
  }

  /** Lookups of other destinations see the same first entry. */
  lemma WithoutIndexOf(list: seq<UndirectedEdge>, d: int, s: int, t: int)
    ensures t == d ==> IndexOf(Without(list, d), s, t) == -1
    ensures t != d ==> (IndexOf(Without(list, d), s, t) >= 0 <==> IndexOf(list, s, t) >= 0)
    ensures t != d && IndexOf(list, s, t) >= 0 ==>
              Without(list, d)[IndexOf(Without(list, d), s, t)] == list[IndexOf(list, s, t)]
  {
    if t != d {
      WithoutOther(list, d, s, t);
    }
  }

  /** Lookups of a destination other than `d` agree on `list` and on
      `Without(list, d)`. */
  lemma {:induction false} WithoutOther(list: seq<UndirectedEdge>, d: int, s: int, t: int)
    requires t != d
    ensures IndexOf(Without(list, d), s, t) >= 0 <==> IndexOf(list, s, t) >= 0
    ensures IndexOf(list, s, t) >= 0 ==> Without(list, d)[IndexOf(Without(list, d), s, t)] == list[IndexOf(list, s, t)]
  {
    if |list| > 0 {
      WithoutOther(list[1..], d, s, t);
      if list[0].dest == d {
        WithoutDropped(list, d, s, t);
      } else {
        WithoutKept(list, d, s, t);
      }
    }
  }

  /** The step of `WithoutOther` when the first entry is dropped. */
  lemma WithoutDropped(list: seq<UndirectedEdge>, d: int, s: int, t: int)
    requires t != d && |list| > 0 && list[0].dest == d
    requires IndexOf(Without(list[1..], d), s, t) >= 0 <==> IndexOf(list[1..], s, t) >= 0
    requires IndexOf(list[1..], s, t) >= 0 ==>
               Without(list[1..], d)[IndexOf(Without(list[1..], d), s, t)] == list[1..][IndexOf(list[1..], s, t)]
    ensures IndexOf(Without(list, d), s, t) >= 0 <==> IndexOf(list, s, t) >= 0
    ensures IndexOf(list, s, t) >= 0 ==> Without(list, d)[IndexOf(Without(list, d), s, t)] == list[IndexOf(list, s, t)]
  {
    var rest := Without(list[1..], d);
    assert Without(list, d) == [] + rest == rest;
    IndexOfTail(list, s, t);
  }

  /** A lookup past a first entry that does not match is a lookup in the
      rest, shifted by one. */
  lemma IndexOfTail(list: seq<UndirectedEdge>, s: int, t: int)
    requires |list| > 0 && !(list[0].src == s && list[0].dest == t)
    ensures IndexOf(list, s, t) == (if IndexOf(list[1..], s, t) == -1 then -1 else IndexOf(list[1..], s, t) + 1)
    ensures IndexOf(list, s, t) >= 0 ==> list[IndexOf(list, s, t)] == list[1..][IndexOf(list[1..], s, t)]
  {
  }

  /** The step of `WithoutOther` when the first entry is kept. */
  lemma WithoutKept(list: seq<UndirectedEdge>, d: int, s: int, t: int)
    requires t != d && |list| > 0 && list[0].dest != d
    requires IndexOf(Without(list[1..], d), s, t) >= 0 <==> IndexOf(list[1..], s, t) >= 0
    requires IndexOf(list[1..], s, t) >= 0 ==>
               Without(list[1..], d)[IndexOf(Without(list[1..], d), s, t)] == list[1..][IndexOf(list[1..], s, t)]
    ensures IndexOf(Without(list, d), s, t) >= 0 <==> IndexOf(list, s, t) >= 0
    ensures IndexOf(list, s, t) >= 0 ==> Without(list, d)[IndexOf(Without(list, d), s, t)] == list[IndexOf(list, s, t)]
  {
    var rest := Without(list[1..], d);
    var w := [list[0]] + rest;
    assert w[1..] == rest && w[0] == list[0];
    assert Without(list, d) == w;
    if !(list[0].src == s && list[0].dest == t) {
      IndexOfTail(w, s, t);
      IndexOfTail(list, s, t);
    }
  }

  /** `adj` with the edge between `a` and `b` deleted in both directions. */
  function Removed(adj: seq<seq<UndirectedEdge>>, a: int, b: int): (r: seq<seq<UndirectedEdge>>)
    requires 0 <= a < |adj| && 0 <= b < |adj|
    ensures |r| == |adj|
  {
    var adj1 := adj[a := Without(adj[a], b)];
    adj1[b := Without(adj1[b], a)]
  }

  /** The deleted graph keeps every other edge, with its weight. */
  lemma RemovedAdjacent(adj: seq<seq<UndirectedEdge>>, a: int, b: int, x: int, y: int)
    requires 0 <= a < |adj| && 0 <= b < |adj|
    ensures Adjacent(Removed(adj, a, b), x, y) <==>
              Adjacent(adj, x, y) && !(x == a && y == b) && !(x == b && y == a)
    ensures Adjacent(Removed(adj, a, b), x, y) ==> EdgeWeight(Removed(adj, a, b), x, y) == EdgeWeight(adj, x, y)
  {
    var r: seq<seq<UndirectedEdge>> := Removed(adj, a, b);
    if 0 <= x < |adj| {
      if x == a && x == b {
        WithoutIndexOf(adj[a], b, x, y);
        WithoutIndexOf(Without(adj[a], b), a, x, y);
      } else if x == a {
        WithoutIndexOf(adj[a], b, x, y);
      } else if x == b {
        WithoutIndexOf(adj[b], a, x, y);
      }
    }
  }

  /** Deleting an edge keeps the graph well formed. */
  lemma RemovedWellFormed(adj: seq<seq<UndirectedEdge>>, a: int, b: int)
    requires WellFormed(adj) && 0 <= a < |adj| && 0 <= b < |adj|
    ensures WellFormed(Removed(adj, a, b))
  {
    var r: seq<seq<UndirectedEdge>> := Removed(adj, a, b);
    forall u: int, i: int | 0 <= u < |r| && 0 <= i < |r[u]| ensures r[u][i].src == u && 0 <= r[u][i].dest < |r| {
      if u == a || u == b {
        assert r[u][i] in adj[u] by {
          if u == a && u != b {
            assert r[u] == Without(adj[a], b);
          } else if u == b && u != a {
            assert r[u] == Without(adj[b], a);
          } else {
            assert r[u] == Without(Without(adj[a], b), a);
          }
        }
      }
    }
    forall u, v | Adjacent(r, u, v) ensures Adjacent(r, v, u) && EdgeWeight(r, u, v) == EdgeWeight(r, v, u) {
      RemovedAdjacent(adj, a, b, u, v);
      RemovedAdjacent(adj, a, b, v, u);
    }
  }

  /** No edge lies on a cycle: deleting any edge disconnects its ends. */
  ghost predicate Forest(adj: seq<seq<UndirectedEdge>>)
  {
    forall a, b :: Adjacent(adj, a, b) ==> !Reachable(Removed(adj, a, b), a, b)
  }

  /** Adding an edge between two vertices that are not yet connected keeps a
      forest a forest. */
  lemma ForestAfterAdd(adj: seq<seq<UndirectedEdge>>, adj2: seq<seq<UndirectedEdge>>, u: int, v: int, w: int)
    requires WellFormed(adj) && WellFormed(adj2) && AddsArc(adj, adj2, u, v, w)
    requires !Reachable(adj, u, v) && Forest(adj)
    ensures Forest(adj2)
  {
    assert Adjacent(adj2, u, v);
    forall a, b | Adjacent(adj2, a, b) ensures !Reachable(Removed(adj2, a, b), a, b) {
      var r2 := Removed(adj2, a, b);
      forall x, y ensures Adjacent(r2, x, y) <==> Adjacent(adj2, x, y) && !(x == a && y == b) && !(x == b && y == a) {
        RemovedAdjacent(adj2, a, b, x, y);
      }
      if (a == u && b == v) || (a == v && b == u) {
        if Reachable(r2, a, b) {
          ReachableGrows(r2, adj, a, b);
          if a == v {
            ReachableSym(adj, a, b);
          }
        }
      } else {
        var r := Removed(adj, a, b);
        forall x, y ensures Adjacent(r, x, y) <==> Adjacent(adj, x, y) && !(x == a && y == b) && !(x == b && y == a) {
          RemovedAdjacent(adj, a, b, x, y);
          RemovedAdjacent(adj2, a, b, x, y);
        }
        forall x, y | Adjacent(r, x, y) ensures EdgeWeight(r2, x, y) == EdgeWeight(r, x, y) {
          RemovedAdjacent(adj, a, b, x, y);
          RemovedAdjacent(adj2, a, b, x, y);
        }
        RemovedAdjacent(adj2, a, b, u, v);
        RemovedAdjacent(adj2, a, b, v, u);
        assert AddsArc(r, r2, u, v, w);
        ReachAfterAdd(r, r2, u, v, w, a, b);
        if Reachable(r2, a, b) {
          RemovedWellFormed(adj, a, b);
          ForestClosesCycle(adj, r, u, v, a, b);
        }
      }
    }
  }

  /** With `a`-`b` an edge of `adj` and `r` a subgraph of `adj`, a walk in `r`
      from `a` to `u` and from `v` to `b` joins `u` and `v` in `adj`. */
  lemma ForestClosesCycle(adj: seq<seq<UndirectedEdge>>, r: seq<seq<UndirectedEdge>>, u: int, v: int, a: int, b: int)
    requires WellFormed(adj) && WellFormed(r) && |r| == |adj| && Adjacent(adj, a, b)
    requires forall x, y :: Adjacent(r, x, y) ==> Adjacent(adj, x, y)
    requires (Reachable(r, a, u) && Reachable(r, v, b)) || (Reachable(r, a, v) && Reachable(r, u, b))
    ensures Reachable(adj, u, v)
  {
    ReachableArc(adj, a, b);
    if Reachable(r, a, u) && Reachable(r, v, b) {
      ReachableGrows(r, adj, a, u);
      ReachableGrows(r, adj, v, b);
      ReachableSym(adj, a, u);
      ReachableSym(adj, v, b);
      ReachableTrans(adj, u, a, b);
      ReachableTrans(adj, u, b, v);
    } else {
      ReachableGrows(r, adj, a, v);
      ReachableGrows(r, adj, u, b);
      ReachableSym(adj, a, b);
      ReachableTrans(adj, u, b, a);
      ReachableTrans(adj, u, a, v);
    }
  }

  /** Connected vertices have the same component. */
  lemma SameComponent(adj: seq<seq<UndirectedEdge>>, x: int, y: int)
    requires WellFormed(adj) && Reachable(adj, x, y)
    ensures Component(adj, x) == Component(adj, y)
  {
    forall z | Reachable(adj, y, z) ensures Reachable(adj, x, z) {
      ReachableTrans(adj, x, y, z);
    }
    ReachableSym(adj, x, y);
    forall z | Reachable(adj, x, z) ensures Reachable(adj, y, z) {
      ReachableTrans(adj, y, x, z);
    }
  }

  /** Adding an edge between two components merges exactly those two. */
  lemma ComponentAfterAdd(adj: seq<seq<UndirectedEdge>>, adj2: seq<seq<UndirectedEdge>>,
                          u: int, v: int, w: int, x: int)
    requires WellFormed(adj) && AddsArc(adj, adj2, u, v, w) && !Reachable(adj, u, v)
    requires 0 <= x < |adj|
    ensures Component(adj2, x) ==
              if x in Component(adj, u) + Component(adj, v) then Component(adj, u) + Component(adj, v)
              else Component(adj, x)
  {
    assert Adjacent(adj2, u, v);
    var Cu, Cv := Component(adj, u), Component(adj, v);
    if x in Cu {
      ReachableSym(adj, u, x);
      SameComponent(adj, u, x);
      if Reachable(adj, x, v) { ReachableTrans(adj, u, x, v); }
      forall y | 0 <= y < |adj| ensures Reachable(adj2, x, y) <==> y in Cu + Cv {
        ReachAfterAdd(adj, adj2, u, v, w, x, y);
      }
    } else if x in Cv {
      ReachableSym(adj, v, x);
      SameComponent(adj, v, x);
      if Reachable(adj, x, u) {
        ReachableTrans(adj, v, x, u);
        ReachableSym(adj, v, u);
      }
      forall y | 0 <= y < |adj| ensures Reachable(adj2, x, y) <==> y in Cu + Cv {
        ReachAfterAdd(adj, adj2, u, v, w, x, y);
      }
    } else {
      if Reachable(adj, x, u) { ReachableSym(adj, x, u); }
      if Reachable(adj, x, v) { ReachableSym(adj, x, v); }
      forall y | 0 <= y < |adj| ensures Reachable(adj2, x, y) <==> Reachable(adj, x, y) {
        ReachAfterAdd(adj, adj2, u, v, w, x, y);
      }
    }
  }

  /** Joining two components lowers their number by one. */
  lemma MergeComponents(adj: seq<seq<UndirectedEdge>>, adj2: seq<seq<UndirectedEdge>>, u: int, v: int, w: int)
    requires WellFormed(adj) && AddsArc(adj, adj2, u, v, w) && !Reachable(adj, u, v)
    ensures |Components(adj2)| == |Components(adj)| - 1
  {
    assert Adjacent(adj2, u, v);
    var Cu, Cv := Component(adj, u), Component(adj, v);
    var C, C2 := Components(adj), Components(adj2);
    ReachableRefl(adj, u);
    ReachableRefl(adj, v);
    assert u in Cu && v in Cv;
    if u in Cv { ReachableSym(adj, v, u); }
    assert Cu != Cv;
    forall D | D in C2 ensures D in (C - {Cu, Cv}) + {Cu + Cv} {
      var x :| 0 <= x < |adj| && D == Component(adj2, x);
      ComponentAfterAdd(adj, adj2, u, v, w, x);
      if x !in Cu + Cv {
        ReachableRefl(adj, x);
        assert x in Component(adj, x);
      }
    }
    forall D | D in (C - {Cu, Cv}) + {Cu + Cv} ensures D in C2 {
      if D == Cu + Cv {
        ComponentAfterAdd(adj, adj2, u, v, w, u);
        assert D == Component(adj2, u);
      } else {
        var x :| 0 <= x < |adj| && D == Component(adj, x);
        if x in Cu {
          ReachableSym(adj, u, x);
          SameComponent(adj, u, x);
        } else if x in Cv {
          ReachableSym(adj, v, x);
          SameComponent(adj, v, x);
        }
        ComponentAfterAdd(adj, adj2, u, v, w, x);
        assert D == Component(adj2, x);
      }
    }
    assert C2 == (C - {Cu, Cv}) + {Cu + Cv};
    if Cu + Cv in C - {Cu, Cv} {
      var x :| 0 <= x < |adj| && Cu + Cv == Component(adj, x);
      ReachableSym(adj, x, u);
      SameComponent(adj, u, x);
      assert false;
    }
  }

  /** Adding a new edge between distinct vertices adds one pair. */
  lemma AddPair(adj: seq<seq<UndirectedEdge>>, adj2: seq<seq<UndirectedEdge>>, u: int, v: int, w: int)
    requires WellFormed(adj) && AddsArc(adj, adj2, u, v, w) && u != v && !Adjacent(adj, u, v)
    ensures |EdgePairs(adj2)| == |EdgePairs(adj)| + 1
  {
    assert Adjacent(adj2, u, v);
    var pr := if u < v then (u, v) else (v, u);
    assert !Adjacent(adj, v, u);
    assert pr !in EdgePairs(adj);
    forall q | q in EdgePairs(adj2) ensures q in EdgePairs(adj) + {pr} {
      assert Adjacent(adj2, q.0, q.1);
    }
    forall q | q in EdgePairs(adj) + {pr} ensures q in EdgePairs(adj2) {
      if q != pr {
        assert Adjacent(adj, q.0, q.1);
      }
    }
    assert EdgePairs(adj2) == EdgePairs(adj) + {pr};
  }

  /** In a graph without edges a vertex reaches only itself. */
  lemma NoWalks(adj: seq<seq<UndirectedEdge>>, x: int, y: int)
    requires forall i :: 0 <= i < |adj| ==> adj[i] == []
    requires Reachable(adj, x, y)
    ensures x == y
  {
    var p :| WalkFromTo(adj, p, x, y);
    assert |p| > 1 ==> Adjacent(adj, p[0], p[1]);
  }

  /** A graph without edges has one component per vertex. */
  lemma EmptyComponents(adj: seq<seq<UndirectedEdge>>)
    requires forall i :: 0 <= i < |adj| ==> adj[i] == []
    ensures |Components(adj)| == |adj|
    ensures EdgePairs(adj) == {}
  {
    forall x | 0 <= x < |adj| ensures Component(adj, x) == {x} {
      ReachableRefl(adj, x);
      forall y | Reachable(adj, x, y) ensures y == x {
        NoWalks(adj, x, y);
      }
    }
    Singletons(|adj|);
    assert Components(adj) == set x | 0 <= x < |adj| :: {x};
  }

  lemma {:induction false} Singletons(n: nat)
    ensures |set x | 0 <= x < n :: {x}| == n
  {
    if n > 0 {
      Singletons(n - 1);
      var S, S' := set x | 0 <= x < n :: {x}, set x | 0 <= x < n - 1 :: {x};
      assert S == S' + {{n - 1}};
      assert {n - 1} !in S';
    }
  }

  // ---------------------------------------------------------------------
  // The loop of getMST

  /** `roots[x]` is the union-find representative of `x`. */
  ghost function Roots(uf: UnionFind): (r: seq<int>)
    reads uf
    requires uf.Valid()
    ensures |r| == uf.numElements
    ensures forall x :: 0 <= x < |r| ==> r[x] == uf.Root(x)
  {
    seq(uf.numElements, x reads uf requires uf.Valid() && 0 <= x < uf.numElements => uf.Root(x))
  }

  /** Two vertices share a representative exactly when the forest joins them. */
  ghost predicate Tracks(roots: seq<int>, adj: seq<seq<UndirectedEdge>>)
  {
    && |roots| == |adj|
    && forall x, y :: 0 <= x < |adj| && 0 <= y < |adj| ==> (roots[x] == roots[y] <==> Reachable(adj, x, y))
  }

  /** The invariant of the loop over `sorted`, after its first `k` edges:
      the forest `adj` is a subgraph of `g` with `g`'s weights and no
      self-loops, none of its edges lies on a cycle, the union-find tracks its components, it has one edge fewer
      than vertices per component, every edge seen so far is `Light` in it,
      and it holds no edge heavier than an edge still to come. */
  ghost predicate Kruskaling(gadj: seq<seq<UndirectedEdge>>, sorted: seq<Edge>, k: int,
                             adj: seq<seq<UndirectedEdge>>, roots: seq<int>)
  {
    && 0 <= k <= |sorted|
    && |roots| == |adj|
    && Subforest(gadj, sorted, k, adj)
    && Forest(adj)
    && Tracks(roots, adj)
    && Counted(adj)
    && LightUpTo(adj, sorted, k)
  }

  /** `adj` is a well-formed subgraph of `g` with `g`'s weights, without
      self-loops, and none of its edges is heavier than `sorted[k..]`. */
  ghost predicate Subforest(gadj: seq<seq<UndirectedEdge>>, sorted: seq<Edge>, k: int, adj: seq<seq<UndirectedEdge>>)
  {
    && |adj| == |gadj|
    && WellFormed(adj)
    && (forall a, b :: Adjacent(adj, a, b) ==> Adjacent(gadj, a, b) && EdgeWeight(adj, a, b) == EdgeWeight(gadj, a, b))
    && (forall a :: !Adjacent(adj, a, a))
    && (forall a, b, j :: Adjacent(adj, a, b) && 0 <= j && k <= j < |sorted| ==> EdgeWeight(adj, a, b) <= sorted[j].weight)
  }

  /** One edge fewer than vertices per component. */
  ghost predicate Counted(adj: seq<seq<UndirectedEdge>>)
  {
    |EdgePairs(adj)| + |Components(adj)| == |adj|
  }

  /** The first `k` edges of `sorted` are `Light`. */
  ghost predicate LightUpTo(adj: seq<seq<UndirectedEdge>>, sorted: seq<Edge>, k: int)
  {
    forall j :: 0 <= j < k && j < |sorted| ==> Light(adj, sorted[j])
  }

  /** The edge list `getMST` walks: the edges of `g`, each once, by weight. */
  ghost predicate EdgeList(gadj: seq<seq<UndirectedEdge>>, sorted: seq<Edge>)
  {
    && WellFormed(gadj)
    && SortedByWeight(sorted)
    && (forall j :: 0 <= j < |sorted| ==> EdgeOf(gadj, sorted[j]))
    && (forall e :: EdgeOf(gadj, e) ==> e in sorted)
  }

  lemma KruskalStart(gadj: seq<seq<UndirectedEdge>>, sorted: seq<Edge>, adj: seq<seq<UndirectedEdge>>, roots: seq<int>)
    requires |adj| == |gadj| == |roots| && WellFormed(adj)
    requires forall i :: 0 <= i < |adj| ==> adj[i] == [] && roots[i] == i
    ensures Kruskaling(gadj, sorted, 0, adj, roots)
  {
    EmptyComponents(adj);
    forall x, y | 0 <= x < |adj| && 0 <= y < |adj| ensures roots[x] == roots[y] <==> Reachable(adj, x, y) {
      if x == y {
        ReachableRefl(adj, x);
      }
      if Reachable(adj, x, y) {
        NoWalks(adj, x, y);
      }
    }
  }

  /** `adj` with the `u`-`v` entry appended to `u`'s list and the `v`-`u`
      entry to `v`'s, as `Graph.addEdge` does. */
  function WithEdge(adj: seq<seq<UndirectedEdge>>, u: int, v: int, w: Int32): (adj2: seq<seq<UndirectedEdge>>)
    requires 0 <= u < |adj| && 0 <= v < |adj|
    ensures |adj2| == |adj|
  {
    var adj1 := adj[u := adj[u] + [UndirectedEdge(u, v, w)]];
    adj1[v := adj1[v] + [UndirectedEdge(v, u, w)]]
  }

  /** The next edge is an edge of `g`; if its endpoints have different
      roots, they are distinct and not yet joined. */
  lemma KruskalNext(gadj: seq<seq<UndirectedEdge>>, sorted: seq<Edge>, k: int,
                    adj: seq<seq<UndirectedEdge>>, roots: seq<int>)
    requires EdgeList(gadj, sorted) && Kruskaling(gadj, sorted, k, adj, roots) && k < |sorted|
    ensures 0 <= sorted[k].u < |adj| && 0 <= sorted[k].v < |adj|
    ensures roots[sorted[k].u] != roots[sorted[k].v] ==> sorted[k].u != sorted[k].v && !Adjacent(adj, sorted[k].u, sorted[k].v)
  {
    var u, v := sorted[k].u, sorted[k].v;
    assert EdgeOf(gadj, sorted[k]);
    if u == v { ReachableRefl(adj, u); }
    if Adjacent(adj, u, v) { ReachableArc(adj, u, v); }
  }

  /** An edge whose endpoints share a root is already `Light`: the walk
      joining them uses only edges met earlier, so none heavier. */
  lemma KruskalSkip(gadj: seq<seq<UndirectedEdge>>, sorted: seq<Edge>, k: int,
                    adj: seq<seq<UndirectedEdge>>, roots: seq<int>)
    requires EdgeList(gadj, sorted) && Kruskaling(gadj, sorted, k, adj, roots) && k < |sorted|
    requires roots[sorted[k].u] == roots[sorted[k].v]
    ensures Kruskaling(gadj, sorted, k + 1, adj, roots)
  {
    var e := sorted[k];
    assert EdgeOf(gadj, e);
    var p :| WalkFromTo(adj, p, e.u, e.v);
    assert LightWalk(adj, p, e.weight);
  }

  /** An edge whose endpoints have different roots joins two trees: adding
      it and merging the two sets keeps the invariant. */
  lemma KruskalJoin(gadj: seq<seq<UndirectedEdge>>, sorted: seq<Edge>, k: int,
                    adj: seq<seq<UndirectedEdge>>, roots: seq<int>,
                    adj2: seq<seq<UndirectedEdge>>, roots2: seq<int>, winner: int)
    requires EdgeList(gadj, sorted) && Kruskaling(gadj, sorted, k, adj, roots) && k < |sorted|
    requires roots[sorted[k].u] != roots[sorted[k].v]
    requires 0 <= sorted[k].u < |adj| && 0 <= sorted[k].v < |adj|
    requires adj2 == WithEdge(adj, sorted[k].u, sorted[k].v, sorted[k].weight)
    requires winner == roots[sorted[k].u] || winner == roots[sorted[k].v]
    requires |roots2| == |roots|
    requires forall x :: 0 <= x < |roots| ==>
               roots2[x] == if roots[x] == roots[sorted[k].u] || roots[x] == roots[sorted[k].v] then winner else roots[x]
    ensures Kruskaling(gadj, sorted, k + 1, adj2, roots2)
  {
    var e := sorted[k];
    KruskalNext(gadj, sorted, k, adj, roots);
    AddEdgeKeepsWellFormed(adj, e.u, e.v, e.weight);
    JoinTrees(gadj, sorted, k, adj, roots, adj2, roots2, winner);
  }

  lemma JoinTrees(gadj: seq<seq<UndirectedEdge>>, sorted: seq<Edge>, k: int,
                  adj: seq<seq<UndirectedEdge>>, roots: seq<int>,
                  adj2: seq<seq<UndirectedEdge>>, roots2: seq<int>, winner: int)
    requires EdgeList(gadj, sorted) && Kruskaling(gadj, sorted, k, adj, roots) && k < |sorted|
    requires roots[sorted[k].u] != roots[sorted[k].v]
    requires WellFormed(adj2) && AddsArc(adj, adj2, sorted[k].u, sorted[k].v, sorted[k].weight)
    requires winner == roots[sorted[k].u] || winner == roots[sorted[k].v]
    requires |roots2| == |roots|
    requires forall x :: 0 <= x < |roots| ==>
               roots2[x] == if roots[x] == roots[sorted[k].u] || roots[x] == roots[sorted[k].v] then winner else roots[x]
    ensures Kruskaling(gadj, sorted, k + 1, adj2, roots2)
  {
    var e := sorted[k];
    var u, v := e.u, e.v;
    assert EdgeOf(gadj, e);
    assert !Reachable(adj, u, v);
    assert u != v by { if u == v { ReachableRefl(adj, u); } }
    assert !Adjacent(adj, u, v) by { if Adjacent(adj, u, v) { ReachableArc(adj, u, v); } }
    SubgraphAfterAdd(gadj, sorted, k, adj, adj2);
    ForestAfterAdd(adj, adj2, u, v, e.weight);
    TracksAfterAdd(adj, adj2, u, v, e.weight, roots, roots2, winner);
    CountAfterAdd(adj, adj2, u, v, e.weight);
    LightsAfterAdd(adj, adj2, sorted, k);
  }

  /** One more edge, one component fewer. */
  lemma CountAfterAdd(adj: seq<seq<UndirectedEdge>>, adj2: seq<seq<UndirectedEdge>>, u: int, v: int, w: int)
    requires WellFormed(adj) && AddsArc(adj, adj2, u, v, w) && !Reachable(adj, u, v) && u != v && !Adjacent(adj, u, v)
    requires Counted(adj)
    ensures Counted(adj2)
  {
    MergeComponents(adj, adj2, u, v, w);
    AddPair(adj, adj2, u, v, w);
  }

  /** The edges seen so far stay light, and the new one is light by itself. */
  lemma LightsAfterAdd(adj: seq<seq<UndirectedEdge>>, adj2: seq<seq<UndirectedEdge>>, sorted: seq<Edge>, k: int)
    requires 0 <= k < |sorted| && AddsArc(adj, adj2, sorted[k].u, sorted[k].v, sorted[k].weight)
    requires LightUpTo(adj, sorted, k)
    ensures LightUpTo(adj2, sorted, k + 1)
  {
    var e := sorted[k];
    forall j | 0 <= j < k ensures Light(adj2, sorted[j]) {
      LightAfterAdd(adj, adj2, e.u, e.v, e.weight, sorted[j]);
    }
    assert Adjacent(adj2, e.u, e.v);
    assert WalkFromTo(adj2, [e.u, e.v], e.u, e.v) && LightWalk(adj2, [e.u, e.v], e.weight);
  }

  /** Adding the next edge keeps the forest a subgraph of `g` with `g`'s
      weights, free of self-loops and free of edges heavier than the rest. */
  lemma SubgraphAfterAdd(gadj: seq<seq<UndirectedEdge>>, sorted: seq<Edge>, k: int,
                         adj: seq<seq<UndirectedEdge>>, adj2: seq<seq<UndirectedEdge>>)
    requires EdgeList(gadj, sorted) && 0 <= k < |sorted| && sorted[k].u != sorted[k].v
    requires Subforest(gadj, sorted, k, adj) && WellFormed(adj2)
    requires AddsArc(adj, adj2, sorted[k].u, sorted[k].v, sorted[k].weight)
    ensures Subforest(gadj, sorted, k + 1, adj2)
  {
    var e := sorted[k];
    assert EdgeOf(gadj, e);
    assert Adjacent(gadj, e.v, e.u) && EdgeWeight(gadj, e.v, e.u) == EdgeWeight(gadj, e.u, e.v);
  }

  /** Merging the sets of `u` and `v` under `winner` tracks the components
      after the `u`-`v` edge is added. */
  lemma TracksAfterAdd(adj: seq<seq<UndirectedEdge>>, adj2: seq<seq<UndirectedEdge>>, u: int, v: int, w: int,
                       roots: seq<int>, roots2: seq<int>, winner: int)
    requires AddsArc(adj, adj2, u, v, w) && Tracks(roots, adj)
    requires 0 <= u < |adj| && 0 <= v < |adj| && roots[u] != roots[v] && (winner == roots[u] || winner == roots[v])
    requires |roots2| == |roots|
    requires forall x :: 0 <= x < |roots| ==>
               roots2[x] == if roots[x] == roots[u] || roots[x] == roots[v] then winner else roots[x]
    ensures Tracks(roots2, adj2)
  {
    forall x, y | 0 <= x < |adj| && 0 <= y < |adj|
      ensures roots2[x] == roots2[y] <==> Reachable(adj2, x, y)
    {
      ReachAfterAdd(adj, adj2, u, v, w, x, y);
      assert Reachable(adj, x, u) <==> roots[x] == roots[u];
      assert Reachable(adj, v, y) <==> roots[v] == roots[y];
      assert Reachable(adj, x, v) <==> roots[x] == roots[v];
      assert Reachable(adj, u, y) <==> roots[u] == roots[y];
    }
  }

  /** A light walk stays light when an edge is added. */
  lemma LightAfterAdd(adj: seq<seq<UndirectedEdge>>, adj2: seq<seq<UndirectedEdge>>, u: int, v: int, w: int, e: Edge)
    requires AddsArc(adj, adj2, u, v, w) && Light(adj, e)
    ensures Light(adj2, e)
  {
    var p :| WalkFromTo(adj, p, e.u, e.v) && LightWalk(adj, p, e.weight);
    assert WalkFromTo(adj2, p, e.u, e.v) && LightWalk(adj2, p, e.weight);
  }

  /** After the last edge: the forest connects what `g` connects. */
  lemma KruskalEnd(gadj: seq<seq<UndirectedEdge>>, sorted: seq<Edge>, adj: seq<seq<UndirectedEdge>>, roots: seq<int>)
    requires EdgeList(gadj, sorted) && Kruskaling(gadj, sorted, |sorted|, adj, roots)
    ensures forall x, y :: Reachable(gadj, x, y) <==> Reachable(adj, x, y)
    ensures Components(adj) == Components(gadj)
  {
    forall a, b | Adjacent(gadj, a, b) ensures Reachable(adj, a, b) {
      BothDirectionsAgree(gadj, a, b);
      var e := MakeEdge(a, b, EdgeWeight(gadj, a, b));
      assert e in sorted;
      assert Light(adj, e);
      if e.u != a {
        ReachableSym(adj, e.u, e.v);
      }
    }
    forall x, y | Reachable(gadj, x, y) ensures Reachable(adj, x, y) {
      var p :| WalkFromTo(gadj, p, x, y);
      WalkInForest(gadj, adj, p);
    }
    forall x, y | Reachable(adj, x, y) ensures Reachable(gadj, x, y) {
      ReachableGrows(adj, gadj, x, y);
    }
    forall x | 0 <= x < |adj| ensures Component(adj, x) == Component(gadj, x) {
    }
  }

  lemma {:induction false} WalkInForest(gadj: seq<seq<UndirectedEdge>>, adj: seq<seq<UndirectedEdge>>, p: seq<int>)
    requires forall a, b :: Adjacent(gadj, a, b) ==> Reachable(adj, a, b)
    requires IsWalk(gadj, p) && |adj| == |gadj|
    ensures Reachable(adj, p[0], p[|p| - 1])
    decreases |p|
  {
    if |p| == 1 {
      ReachableRefl(adj, p[0]);
    } else {
      assert IsWalk(gadj, p[1..]);
      WalkInForest(gadj, adj, p[1..]);
      assert Adjacent(gadj, p[0], p[1]);
      ReachableTrans(adj, p[0], p[1], p[|p| - 1]);
    }
  }

  /** A walk of `g` whose edges weigh at most `m` joins its ends by a walk of
      the forest `adj` that avoids any given edge heavier than `m`, when
      every edge of `g` is `Light` in `adj`. */
  lemma {:induction false} LightJoins(gadj: seq<seq<UndirectedEdge>>, adj: seq<seq<UndirectedEdge>>,
                                      q: seq<int>, m: int, x: int, y: int)
    requires WellFormed(gadj) && WellFormed(adj) && |adj| == |gadj|
    requires forall e :: EdgeOf(gadj, e) ==> Light(adj, e)
    requires IsWalk(gadj, q) && LightWalk(gadj, q, m)
    requires Adjacent(adj, x, y) && EdgeWeight(adj, x, y) > m
    ensures Reachable(Removed(adj, x, y), q[0], q[|q| - 1])
    decreases |q|
  {
    var r := Removed(adj, x, y);
    RemovedWellFormed(adj, x, y);
    if |q| == 1 {
      ReachableRefl(r, q[0]);
    } else {
      assert IsWalk(gadj, q[1..]) && LightWalk(gadj, q[1..], m);
      LightJoins(gadj, adj, q[1..], m, x, y);
      BothDirectionsAgree(gadj, q[0], q[1]);
      var e := MakeEdge(q[0], q[1], EdgeWeight(gadj, q[0], q[1]));
      assert EdgeOf(gadj, e);
      var p :| WalkFromTo(adj, p, e.u, e.v) && LightWalk(adj, p, e.weight);
      forall k | 0 <= k < |p| - 1 ensures Adjacent(r, p[k], p[k + 1]) {
        RemovedAdjacent(adj, x, y, p[k], p[k + 1]);
      }
      assert WalkFromTo(r, p, e.u, e.v);
      if e.u != q[0] {
        ReachableSym(r, e.u, e.v);
      }
      ReachableTrans(r, q[0], q[1], q[|q| - 1]);
    }
  }

  /** The minimax property of a minimum spanning forest: when every edge of
      `g` is `Light` in the forest, the forest path between the ends of any
      walk of `g` has no edge heavier than that walk's heaviest edge. */
  lemma MinimaxPath(gadj: seq<seq<UndirectedEdge>>, adj: seq<seq<UndirectedEdge>>, q: seq<int>, m: int, p: seq<int>)
    requires WellFormed(gadj) && WellFormed(adj) && Forest(adj) && |adj| == |gadj|
    requires forall e :: EdgeOf(gadj, e) ==> Light(adj, e)
    requires IsWalk(gadj, q) && LightWalk(gadj, q, m)
    requires WalkFromTo(adj, p, q[0], q[|q| - 1]) && VertexSets.Distinct(p)
    ensures LightWalk(adj, p, m)
  {
    forall i | 0 <= i < |p| - 1 ensures EdgeWeight(adj, p[i], p[i + 1]) <= m {
      var x, y := p[i], p[i + 1];
      if EdgeWeight(adj, x, y) > m {
        var r := Removed(adj, x, y);
        RemovedWellFormed(adj, x, y);
        LightJoins(gadj, adj, q, m, x, y);
        forall k | 0 <= k < |p| - 1 && k != i ensures Adjacent(r, p[k], p[k + 1]) {
          RemovedAdjacent(adj, x, y, p[k], p[k + 1]);
        }
        assert WalkFromTo(r, p[..i + 1], p[0], x);
        assert WalkFromTo(r, p[i + 1..], y, p[|p| - 1]);
        ReachableSym(r, p[0], x);
        ReachableSym(r, y, p[|p| - 1]);
        ReachableTrans(r, x, p[0], p[|p| - 1]);
        ReachableTrans(r, x, p[|p| - 1], y);
      }
    }
  }

  /** `getMST(g)`: a minimum spanning forest of `g`, as a new graph on the
      same vertices. */
  method GetMST(g: Graph?) returns (r: Result<Graph>)
    requires g != null ==> g.Valid()
    ensures g == null <==> r.Failure?
    ensures r.Failure? ==> r.error == IllegalArgument
    ensures r.Success? ==> g != null && fresh(r.value) && r.value.Valid() && |r.value.adjLists| == |g.adjLists|
    ensures r.Success? ==> forall a, b :: Adjacent(r.value.adjLists, a, b) ==>
              Adjacent(g.adjLists, a, b) && EdgeWeight(r.value.adjLists, a, b) == EdgeWeight(g.adjLists, a, b)
    ensures r.Success? ==> forall a :: !Adjacent(r.value.adjLists, a, a)
    ensures r.Success? ==> Forest(r.value.adjLists)
    ensures r.Success? ==> forall x, y :: Reachable(r.value.adjLists, x, y) <==> Reachable(g.adjLists, x, y)
    ensures r.Success? ==> |EdgePairs(r.value.adjLists)| == |g.adjLists| - |Components(g.adjLists)|
    ensures r.Success? ==> forall e :: EdgeOf(g.adjLists, e) ==> Light(r.value.adjLists, e)
  {
    if g == null {
      return Failure(IllegalArgument);
    }
    var n := g.GetSize();
    var ar := Graph.New(n);
    var ans := ar.value;
    var ur := UnionFind.New(n);
    var uf := ur.value;
    var er := GetEdges(g);
    var list := ToList(er.value);
    var sorted := Sort(list);
    ghost var gadj := g.adjLists;
    forall j | 0 <= j < |sorted| ensures EdgeOf(gadj, sorted[j]) {
      assert sorted[j] in multiset(list);
    }
    forall e | EdgeOf(gadj, e) ensures e in sorted {
      assert e in multiset(list);
    }
    KruskalStart(gadj, sorted, ans.adjLists, Roots(uf));
    for k := 0 to |sorted|
      invariant ans.Valid() && uf.Valid() && uf.numElements == n
      invariant Kruskaling(gadj, sorted, k, ans.adjLists, Roots(uf))
    {
      Step(ans, uf, gadj, sorted, k);
    }
    KruskalEnd(gadj, sorted, ans.adjLists, Roots(uf));
    return Success(ans);
  }

  /** A turn of the loop, with the invariant it keeps. */
  method Step(ans: Graph, uf: UnionFind, ghost gadj: seq<seq<UndirectedEdge>>, sorted: seq<Edge>, k: int)
    requires ans.Valid() && uf.Valid() && uf.numElements == |ans.adjLists|
    requires EdgeList(gadj, sorted) && 0 <= k < |sorted| && Kruskaling(gadj, sorted, k, ans.adjLists, Roots(uf))
    modifies ans, uf
    ensures ans.Valid() && uf.Valid() && uf.numElements == old(uf.numElements)
    ensures Kruskaling(gadj, sorted, k + 1, ans.adjLists, Roots(uf))
  {
    ghost var adj0, roots0 := ans.adjLists, Roots(uf);
    KruskalNext(gadj, sorted, k, adj0, roots0);
    ghost var joined, winner := Consider(ans, uf, sorted[k]);
    if joined {
      KruskalJoin(gadj, sorted, k, adj0, roots0, ans.adjLists, Roots(uf), winner);
    } else {
      KruskalSkip(gadj, sorted, k, adj0, roots0);
    }
  }

  /** One turn of the loop of `getMST`: when `find` gives different
      representatives for the endpoints of `e`, add `e` to the forest and
      union its endpoints. `joined` tells which branch ran. */
  method Consider(ans: Graph, uf: UnionFind, e: Edge) returns (ghost joined: bool, ghost winner: int)
    requires ans.Valid() && uf.Valid() && uf.numElements == |ans.adjLists|
    requires 0 <= e.u < uf.numElements && 0 <= e.v < uf.numElements
    requires Roots(uf)[e.u] != Roots(uf)[e.v] ==> !Adjacent(ans.adjLists, e.u, e.v)
    modifies ans, uf
    ensures ans.Valid() && uf.Valid() && uf.numElements == old(uf.numElements)
    ensures joined <==> old(Roots(uf))[e.u] != old(Roots(uf))[e.v]
    ensures !joined ==> ans.adjLists == old(ans.adjLists) && Roots(uf) == old(Roots(uf))
    ensures joined ==> ans.adjLists == WithEdge(old(ans.adjLists), e.u, e.v, e.weight)
    ensures joined ==> winner == old(Roots(uf))[e.u] || winner == old(Roots(uf))[e.v]
    ensures joined ==> forall x :: 0 <= x < |Roots(uf)| ==>
              Roots(uf)[x] == if old(Roots(uf))[x] == old(Roots(uf))[e.u] || old(Roots(uf))[x] == old(Roots(uf))[e.v] then winner
                              else old(Roots(uf))[x]
  {
    ghost var roots0 := Roots(uf);
    var fu := uf.Find(e.u);
    var fv := uf.Find(e.v);
    assert Roots(uf) == roots0;
    joined, winner := fu.value != fv.value, 0;
    if fu.value != fv.value {
      var added := ans.AddEdge(e.u, e.v, e.weight);
      winner := Merge(uf, e.u, e.v);
    }
  }

  /** `disjointSets.union(u, v)` for vertices in range, stated on the
      representatives of all elements. */
  method Merge(uf: UnionFind, u: int, v: int) returns (ghost winner: int)
    requires uf.Valid() && 0 <= u < uf.numElements && 0 <= v < uf.numElements
    modifies uf
    ensures uf.Valid() && uf.numElements == old(uf.numElements)
    ensures winner == old(Roots(uf))[u] || winner == old(Roots(uf))[v]
    ensures forall x :: 0 <= x < |Roots(uf)| ==>
              Roots(uf)[x] == if old(Roots(uf))[x] == old(Roots(uf))[u] || old(Roots(uf))[x] == old(Roots(uf))[v] then winner
                              else old(Roots(uf))[x]
  {
    ghost var roots := Roots(uf);
    winner := if uf.elements[u].rank < uf.elements[v].rank then roots[v] else roots[u];
    var joined := uf.Union(u, v);
    ghost var roots2 := Roots(uf);
    forall x | 0 <= x < |roots2|
      ensures roots2[x] == if roots[x] == roots[u] || roots[x] == roots[v] then winner else roots[x]
    {
    }
  }
}
