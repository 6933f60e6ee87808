/** Undirected, int-weighted graph over vertices 0..n-1 stored as symmetric
    adjacency lists (Graph.java). */
module Graphs {
  import opened Wrappers

  /** Java `int`. */
  type Int32 = x: int | -0x8000_0000 <= x <= 0x7fff_ffff

  /** One entry of an adjacency list. Two entries are `equals` when their
      endpoints agree; the weight is ignored. */
  datatype UndirectedEdge = UndirectedEdge(src: int, dest: int, weight: Int32)

  /** `LinkedList.indexOf(new UndirectedEdge(src, dest))`: the first position
      whose endpoints are `src` and `dest`, or -1. */
  function IndexOf(list: seq<UndirectedEdge>, src: int, dest: int): (r: int)
    ensures -1 <= r < |list|
    ensures r >= 0 ==> list[r].src == src && list[r].dest == dest
    ensures r >= 0 ==> forall j :: 0 <= j < r ==> !(list[j].src == src && list[j].dest == dest)
    ensures r == -1 ==> forall j :: 0 <= j < |list| ==> !(list[j].src == src && list[j].dest == dest)
  {
    if |list| == 0 then -1
    else if list[0].src == src && list[0].dest == dest then 0
    else
      var k := IndexOf(list[1..], src, dest);
      if k == -1 then -1 else k + 1
  }

  /** An adjacency list is unchanged for lookups by appending to it an entry
      with different endpoints. */
  lemma {:induction false} IndexOfAppend(list: seq<UndirectedEdge>, e: UndirectedEdge, src: int, dest: int)
    ensures IndexOf(list + [e], src, dest) ==
              if IndexOf(list, src, dest) >= 0 then IndexOf(list, src, dest)
              else if e.src == src && e.dest == dest then |list| else -1
  {
    if |list| > 0 {
      assert (list + [e])[1..] == list[1..] + [e];
      IndexOfAppend(list[1..], e, src, dest);
    }
  }

  /** There is a `u`-`v` entry in `u`'s list. */
  predicate Adjacent(adj: seq<seq<UndirectedEdge>>, u: int, v: int)
  {
    0 <= u < |adj| && 0 <= v < |adj| && IndexOf(adj[u], u, v) >= 0
  }

  /** The weight of the first `u`-`v` entry in `u`'s list. */
  function EdgeWeight(adj: seq<seq<UndirectedEdge>>, u: int, v: int): Int32
    requires Adjacent(adj, u, v)
  {
    adj[u][IndexOf(adj[u], u, v)].weight
  }

  /** The set of `dest` fields of `v`'s list. */
  function Neighbors(adj: seq<seq<UndirectedEdge>>, v: int): set<int>
    requires 0 <= v < |adj|
  {
    set e | e in adj[v] :: e.dest
  }

  /** The class invariant: list `u` holds entries leaving `u` towards vertices
      of the graph, and every `u`-`v` entry is mirrored by a `v`-`u` entry with
      the same weight. */
  ghost predicate WellFormed(adj: seq<seq<UndirectedEdge>>)
  {
    && (forall u, i :: 0 <= u < |adj| && 0 <= i < |adj[u]| ==>
          adj[u][i].src == u && 0 <= adj[u][i].dest < |adj|)
    && (forall u, v :: Adjacent(adj, u, v) ==> Adjacent(adj, v, u))
    && (forall u, v :: Adjacent(adj, u, v) ==> EdgeWeight(adj, u, v) == EdgeWeight(adj, v, u))
  }

  /** In a well-formed graph the neighbour set of `v` is exactly the set of
      vertices adjacent to `v`; in particular `v` is its own neighbour iff it
      has a self-loop. */
  lemma NeighborsAreAdjacent(adj: seq<seq<UndirectedEdge>>, v: int, x: int)
    requires WellFormed(adj) && 0 <= v < |adj|
    ensures x in Neighbors(adj, v) <==> Adjacent(adj, v, x)
  {
    if x in Neighbors(adj, v) {
      var e :| e in adj[v] && e.dest == x;
      var i :| 0 <= i < |adj[v]| && adj[v][i] == e;
      assert adj[v][i].src == v;
    }
    if Adjacent(adj, v, x) {
      assert adj[v][IndexOf(adj[v], v, x)] in adj[v];
    }
  }

  class Graph {
    var numVert: int
    var adjLists: seq<seq<UndirectedEdge>>

    ghost predicate Valid()
      reads this
    {
      numVert == |adjLists| && WellFormed(adjLists)
    }

    /** The loop of the constructor: `n` empty lists. */
    constructor Init(n: nat)
      ensures Valid() && numVert == n
      ensures forall i :: 0 <= i < n ==> adjLists[i] == []
    {
      numVert := n;
      var lists: seq<seq<UndirectedEdge>> := [];
      var i := 0;
      while i < n
        invariant 0 <= i <= n && |lists| == i
        invariant forall j :: 0 <= j < i ==> lists[j] == []
      {
        lists := lists + [[]];
        i := i + 1;
      }
      adjLists := lists;
    }

    /** `new Graph(n)`. The constructor does not test `n`: a negative `n` fails in
        the array allocation with NegativeArraySizeException. */
    static method New(n: int) returns (r: Result<Graph>)
      ensures n < 0 <==> r.Failure?
      ensures r.Failure? ==> r.error == NegativeArraySize
      ensures r.Success? ==> fresh(r.value) && r.value.Valid() && r.value.GetSize() == n
      ensures r.Success? ==> forall i :: 0 <= i < n ==> r.value.adjLists[i] == []
    {
      if n < 0 {
        return Failure(NegativeArraySize);
      }
      var g := new Graph.Init(n);
      return Success(g);
    }

    /** `getSize()`: the vertex count, which is the number of lists. */
    function GetSize(): (n: int)
      reads this
      requires Valid()
      ensures n == |adjLists|
    {
      numVert
    }

    /** `hasEdge(u, v)`: both mirror entries exist. */
    function HasEdge(u: int, v: int): (r: Result<bool>)
      reads this
      requires Valid()
      ensures !(0 <= u < |adjLists| && 0 <= v < |adjLists|) <==> r == Failure(IllegalArgument)
      ensures r.Success? ==> (r.value <==> Adjacent(adjLists, u, v))
    {
      if u >= |adjLists| || u < 0 then Failure(IllegalArgument)
      else if v >= |adjLists| || v < 0 then Failure(IllegalArgument)
      else Success(IndexOf(adjLists[u], u, v) >= 0 && IndexOf(adjLists[v], v, u) >= 0)
    }

    /** `getWeight(u, v)`: the weight stored with the first `u`-`v` entry. */
    function GetWeight(u: int, v: int): (r: Result<Int32>)
      reads this
      requires Valid()
      ensures !(0 <= u < |adjLists| && 0 <= v < |adjLists|) ==> r == Failure(IllegalArgument)
      ensures 0 <= u < |adjLists| && 0 <= v < |adjLists| && !Adjacent(adjLists, u, v) ==> r == Failure(NoSuchElement)
      ensures Adjacent(adjLists, u, v) ==> r == Success(EdgeWeight(adjLists, u, v))
    {
      if u >= |adjLists| || u < 0 then Failure(IllegalArgument)
      else if v >= |adjLists| || v < 0 then Failure(IllegalArgument)
      else if !HasEdge(u, v).value then Failure(NoSuchElement)
      else Success(adjLists[u][IndexOf(adjLists[u], u, v)].weight)
    }

    /** `getNeighbors(v)`: collects the `dest` of every entry of `v`'s list. */
    method GetNeighbors(v: int) returns (r: Result<set<int>>)
      requires Valid()
      ensures !(0 <= v < |adjLists|) ==> r == Failure(IllegalArgument)
      ensures 0 <= v < |adjLists| ==> r.Success? && (forall x :: x in r.value <==> Adjacent(adjLists, v, x))
      ensures 0 <= v < |adjLists| ==> r.value == Neighbors(adjLists, v)
    {
      if v >= |adjLists| || v < 0 {
        return Failure(IllegalArgument);
      }
      var ans: set<int> := {};
      var list := adjLists[v];
      var i := 0;
      while i < |list|
        invariant 0 <= i <= |list|
        invariant ans == set e | e in list[..i] :: e.dest
      {
        assert list[..i + 1] == list[..i] + [list[i]];
        ans := ans + {list[i].dest};
        i := i + 1;
      }
      assert list[..i] == list;
      forall x ensures x in ans <==> Adjacent(adjLists, v, x) {
        NeighborsAreAdjacent(adjLists, v, x);
      }
      return Success(ans);
    }

    /** `addEdge(u, v, weight)`: appends the `u`-`v` entry to `u`'s list and the
        `v`-`u` entry to `v`'s list, unless the edge is already present, in
        which case nothing changes and the answer is `false`. */
    method AddEdge(u: int, v: int, weight: Int32) returns (r: Result<bool>)
      requires Valid()
      modifies this
      ensures Valid() && numVert == old(numVert)
      ensures !(0 <= u < old(|adjLists|) && 0 <= v < old(|adjLists|)) ==> r == Failure(IllegalArgument)
      ensures 0 <= u < old(|adjLists|) && 0 <= v < old(|adjLists|) ==> r.Success?
      ensures r.Success? ==> (r.value <==> !old(Adjacent(adjLists, u, v)))
      ensures r.Success? ==> Adjacent(adjLists, u, v) && Adjacent(adjLists, v, u)
      ensures r.Success? && !r.value ==> EdgeWeight(adjLists, u, v) == old(EdgeWeight(adjLists, u, v))
      ensures r.Success? && r.value ==> EdgeWeight(adjLists, u, v) == weight
      ensures !(r.Success? && r.value) ==> adjLists == old(adjLists)
      ensures r.Success? && r.value ==>
                adjLists == old(adjLists)[u := old(adjLists)[u] + [UndirectedEdge(u, v, weight)]]
                                         [v := old(adjLists)[u := old(adjLists)[u] + [UndirectedEdge(u, v, weight)]][v]
                                               + [UndirectedEdge(v, u, weight)]]
    {
      if u >= |adjLists| || u < 0 {
        return Failure(IllegalArgument);
      }
      if v >= |adjLists| || v < 0 {
        return Failure(IllegalArgument);
      }
      var has := HasEdge(u, v);
      if has.value {
        return Success(false);
      }
      var adj0 := adjLists;
      var adj1 := adj0[u := adj0[u] + [UndirectedEdge(u, v, weight)]];
      var adj2 := adj1[v := adj1[v] + [UndirectedEdge(v, u, weight)]];
      AddEdgeKeepsWellFormed(adj0, u, v, weight);
      adjLists := adj2;
      return Success(true);
    }
  }

  /** Appending a fresh `u`-`v` pair of mirror entries keeps the graph
      well-formed, adds exactly the adjacencies `u`-`v` and `v`-`u` (with
      `weight`), and keeps every other adjacency and weight. */
  lemma AddEdgeKeepsWellFormed(adj: seq<seq<UndirectedEdge>>, u: int, v: int, weight: Int32)
    requires WellFormed(adj) && 0 <= u < |adj| && 0 <= v < |adj| && !Adjacent(adj, u, v)
    ensures var adj1 := adj[u := adj[u] + [UndirectedEdge(u, v, weight)]];
            var adj2 := adj1[v := adj1[v] + [UndirectedEdge(v, u, weight)]];
            && WellFormed(adj2)
            && (forall a, b :: Adjacent(adj2, a, b) <==> Adjacent(adj, a, b) || (a == u && b == v) || (a == v && b == u))
            && (forall a, b :: Adjacent(adj, a, b) ==> EdgeWeight(adj2, a, b) == EdgeWeight(adj, a, b))
            && EdgeWeight(adj2, u, v) == weight && EdgeWeight(adj2, v, u) == weight
  {
    var e1, e2 := UndirectedEdge(u, v, weight), UndirectedEdge(v, u, weight);
    var adj1 := adj[u := adj[u] + [e1]];
    var adj2 := adj1[v := adj1[v] + [e2]];
    assert !Adjacent(adj, v, u);
    forall a, b | 0 <= a < |adj| && 0 <= b < |adj|
      ensures IndexOf(adj2[a], a, b) ==
                if IndexOf(adj[a], a, b) >= 0 then IndexOf(adj[a], a, b)
                else if (a == u && b == v) || (a == v && b == u) then |adj[a]|
                else -1
    {
      IndexOfAppend(adj[a], e1, a, b);
      IndexOfAppend(adj1[a], e2, a, b);
    }
    assert forall a, i :: 0 <= a < |adj| && 0 <= i < |adj[a]| ==> adj2[a][i] == adj[a][i];
    assert forall a :: 0 <= a < |adj| && (a == u || a == v) ==> adj2[a][|adj[a]|].weight == weight;
    forall a, b | Adjacent(adj2, a, b)
      ensures Adjacent(adj2, b, a) && EdgeWeight(adj2, a, b) == EdgeWeight(adj2, b, a)
    {
      if Adjacent(adj, a, b) {
        assert Adjacent(adj, b, a);
      }
    }
    forall a, i | 0 <= a < |adj2| && 0 <= i < |adj2[a]|
      ensures adj2[a][i].src == a && 0 <= adj2[a][i].dest < |adj2|
    {
      if i >= |adj[a]| {
        assert adj2[a][i] == e1 || adj2[a][i] == e2;
      }
    }
  }
}
