/** Weighted directed graph over vertices 0..n-1 with mirrored out- and
    in-lists (WDGraph.java), and the constant-time transposed view of one
    (`ConnectedComponents.TransposeGraph`). */
module WDGraphs {
  import opened Wrappers

  /** An entry of an out-list (towards `neighbor`) or an in-list (from
      `neighbor`). Entries are `equals` when their neighbours agree. */
  datatype Edge = Edge(neighbor: int, weight: int)

  /** `Edge.compareTo`: the difference of the neighbours. Both are vertex
      indices, so the `int` subtraction cannot overflow. */
  function CompareEdges(a: Edge, b: Edge): (r: int)
    ensures r < 0 <==> a.neighbor < b.neighbor
    ensures r == 0 <==> a.neighbor == b.neighbor
  {
    a.neighbor - b.neighbor
  }

  /** `ArrayList.indexOf(new Edge(v))`: the first entry whose neighbour is
      `v`, or -1. */
  function IndexOfNeighbor(list: seq<Edge>, v: int): (r: int)
    ensures -1 <= r < |list|
    ensures r >= 0 ==> list[r].neighbor == v && forall j :: 0 <= j < r ==> list[j].neighbor != v
    ensures r == -1 <==> forall j :: 0 <= j < |list| ==> list[j].neighbor != v
  {
    if |list| == 0 then -1
    else if list[0].neighbor == v then 0
    else
      var k := IndexOfNeighbor(list[1..], v);
      if k == -1 then -1 else k + 1
  }

  /** The neighbour ids of a list. */
  function NeighborSet(list: seq<Edge>): set<int>
  {
    set e | e in list :: e.neighbor
  }

  /** No two entries of a list name the same neighbour. */
  predicate DistinctNeighbors(list: seq<Edge>)
  {
    forall i, j :: 0 <= i < j < |list| ==> list[i].neighbor != list[j].neighbor
  }

  /** Every list names vertices of the graph other than its own. */
  predicate InRange(adj: seq<seq<Edge>>)
  {
    forall u, i :: 0 <= u < |adj| && 0 <= i < |adj[u]| ==>
      0 <= adj[u][i].neighbor < |adj| && adj[u][i].neighbor != u
  }

  /** `list` holds the entry `Edge(v, w)`. */
  predicate Carries(list: seq<Edge>, v: int, w: int)
  {
    Edge(v, w) in list
  }

  /** The class invariant: the out-lists and in-lists describe the same simple
      directed graph, `u -> v` with weight `w` being both `Edge(v, w)` in
      `out[u]` and `Edge(u, w)` in `in[v]`. */
  ghost predicate Mirrored(out: seq<seq<Edge>>, inn: seq<seq<Edge>>)
  {
    && |out| == |inn|
    && InRange(out) && InRange(inn)
    && (forall u :: 0 <= u < |out| ==> DistinctNeighbors(out[u]))
    && (forall u :: 0 <= u < |inn| ==> DistinctNeighbors(inn[u]))
    && (forall u, v, w :: 0 <= u < |out| && 0 <= v < |out| ==>
          (Carries(out[u], v, w) <==> Carries(inn[v], u, w)))
  }

  /** The arc `u -> v` is in the lists `adj`. */
  predicate Arc(adj: seq<seq<Edge>>, u: int, v: int)
  {
    0 <= u < |adj| && v in NeighborSet(adj[u])
  }

  /** The weight stored with the (first) entry for `v` in `list`. */
  function WeightTo(list: seq<Edge>, v: int): int
    requires v in NeighborSet(list)
  {
    var i := IndexOfNeighbor(list, v);
    assert i >= 0 by {
      var e :| e in list && e.neighbor == v;
      var k :| 0 <= k < |list| && list[k] == e;
    }
    list[i].weight
  }

  lemma InNeighborSet(list: seq<Edge>, v: int)
    ensures v in NeighborSet(list) <==> IndexOfNeighbor(list, v) >= 0
  {
    if IndexOfNeighbor(list, v) >= 0 {
      assert list[IndexOfNeighbor(list, v)] in list;
    }
    if v in NeighborSet(list) {
      var e :| e in list && e.neighbor == v;
      var k :| 0 <= k < |list| && list[k] == e;
    }
  }

  /** In a list with distinct neighbours, the entry for `v` is exactly the one
      carrying `WeightTo(list, v)`. */
  lemma DistinctEntry(list: seq<Edge>, v: int, w: int)
    requires DistinctNeighbors(list)
    ensures Edge(v, w) in list <==> v in NeighborSet(list) && WeightTo(list, v) == w
  {
    if Edge(v, w) in list {
      var k :| 0 <= k < |list| && list[k] == Edge(v, w);
      InNeighborSet(list, v);
      assert IndexOfNeighbor(list, v) == k;
    }
    if v in NeighborSet(list) {
      InNeighborSet(list, v);
      assert list[IndexOfNeighbor(list, v)] in list;
    }
  }

  /** Mirror property in terms of the queries: `v` is an out-neighbour of `u`
      iff `u` is an in-neighbour of `v`, with the same weight. */
  lemma MirrorWeights(out: seq<seq<Edge>>, inn: seq<seq<Edge>>, u: int, v: int)
    requires Mirrored(out, inn) && 0 <= u < |out| && 0 <= v < |out|
    ensures Arc(out, u, v) <==> Arc(inn, v, u)
    ensures Arc(out, u, v) ==> WeightTo(out[u], v) == WeightTo(inn[v], u)
  {
    if Arc(out, u, v) {
      var w := WeightTo(out[u], v);
      DistinctEntry(out[u], v, w);
      assert Carries(out[u], v, w);
      DistinctEntry(inn[v], u, w);
    }
    if Arc(inn, v, u) {
      var w := WeightTo(inn[v], u);
      DistinctEntry(inn[v], u, w);
      assert Carries(inn[v], u, w);
      DistinctEntry(out[u], v, w);
    }
  }

  /** Swapping the roles of out- and in-lists describes the transposed graph,
      which is again mirrored. */
  lemma TransposeMirrored(out: seq<seq<Edge>>, inn: seq<seq<Edge>>)
    requires Mirrored(out, inn)
    ensures Mirrored(inn, out)
    ensures forall u, v :: Arc(inn, u, v) <==> Arc(out, v, u)
  {
    forall u, v | Arc(inn, u, v) ensures Arc(out, v, u) {
      var e :| e in inn[u] && e.neighbor == v;
      var k :| 0 <= k < |inn[u]| && inn[u][k] == e;
      MirrorWeights(out, inn, v, u);
    }
    forall u, v | Arc(out, v, u) ensures Arc(inn, u, v) {
      var e :| e in out[v] && e.neighbor == u;
      var k :| 0 <= k < |out[v]| && out[v][k] == e;
      MirrorWeights(out, inn, v, u);
    }
  }

  /** A list with distinct neighbours holds each entry at most once. */
  lemma {:induction false} DistinctOccursOnce(list: seq<Edge>, x: Edge)
    requires DistinctNeighbors(list)
    ensures multiset(list)[x] <= 1
  {
    if |list| > 0 {
      assert list == [list[0]] + list[1..];
      assert DistinctNeighbors(list[1..]);
      DistinctOccursOnce(list[1..], x);
      if x == list[0] {
        assert x !in list[1..];
      }
    }
  }

  /** Two equal entries at different positions occur twice. */
  lemma RepeatCounts(list: seq<Edge>, i: int, j: int)
    requires 0 <= i < j < |list|
    ensures list[i] == list[j] ==> multiset(list)[list[i]] >= 2
  {
    assert list == list[..i] + [list[i]] + list[i + 1..j] + [list[j]] + list[j + 1..];
  }

  /** Permuting a list with distinct neighbours keeps them distinct. */
  lemma PermutationDistinct(list: seq<Edge>, orig: seq<Edge>)
    requires DistinctNeighbors(orig) && multiset(list) == multiset(orig)
    ensures DistinctNeighbors(list)
  {
    forall i, j | 0 <= i < j < |list| ensures list[i].neighbor != list[j].neighbor {
      assert list[i] in multiset(orig) && list[j] in multiset(orig);
      RepeatCounts(list, i, j);
      DistinctOccursOnce(orig, list[i]);
      assert list[i] != list[j];
      var k1 :| 0 <= k1 < |orig| && orig[k1] == list[i];
      var k2 :| 0 <= k2 < |orig| && orig[k2] == list[j];
      assert k1 != k2;
    }
  }

  /** `out` with `u`'s list replaced by a permutation of itself is still
      mirrored with `inn` and has the same arcs. */
  lemma PermuteOutList(out: seq<seq<Edge>>, inn: seq<seq<Edge>>, u: int, list: seq<Edge>)
    requires Mirrored(out, inn) && 0 <= u < |out| && multiset(list) == multiset(out[u])
    ensures Mirrored(out[u := list], inn)
    ensures NeighborSet(list) == NeighborSet(out[u])
  {
    forall e ensures e in list <==> e in out[u] {
      assert e in list <==> e in multiset(list);
      assert e in out[u] <==> e in multiset(out[u]);
    }
    forall i | 0 <= i < |list| ensures 0 <= list[i].neighbor < |out| && list[i].neighbor != u {
      assert list[i] in out[u];
    }
    PermutationDistinct(list, out[u]);
  }

  /** Ascending neighbour order between consecutive entries. */
  predicate SortedByNeighbor(list: seq<Edge>)
  {
    forall i :: 0 <= i < |list| - 1 ==> CompareEdges(list[i], list[i + 1]) <= 0
  }

  /** Consecutive order gives order between any two entries. */
  lemma {:induction false} SortedPairwise(list: seq<Edge>, i: int, j: int)
    requires SortedByNeighbor(list) && 0 <= i <= j < |list|
    ensures list[i].neighbor <= list[j].neighbor
    decreases j - i
  {
    if i < j {
      SortedPairwise(list, i + 1, j);
    }
  }

  /** `Collections.sort` by `Edge.compareTo`: ascending neighbour order, as a
      permutation of the list. */
  function SortByNeighbor(list: seq<Edge>): (r: seq<Edge>)
    ensures multiset(r) == multiset(list)
    ensures SortedByNeighbor(r)
  {
    if |list| == 0 then []
    else
      assert list == [list[0]] + list[1..];
      InsertByNeighbor(list[0], SortByNeighbor(list[1..]))
  }

  function InsertByNeighbor(e: Edge, sorted: seq<Edge>): (r: seq<Edge>)
    requires SortedByNeighbor(sorted)
    ensures multiset(r) == multiset(sorted) + multiset{e}
    ensures SortedByNeighbor(r)
    ensures |r| == |sorted| + 1 && (r[0] == e || (|sorted| > 0 && r[0] == sorted[0]))
  {
    if |sorted| == 0 || CompareEdges(e, sorted[0]) <= 0 then [e] + sorted
    else
      var rest := InsertByNeighbor(e, sorted[1..]);
      assert sorted == [sorted[0]] + sorted[1..];
      [sorted[0]] + rest
  }

  /** The Java class, and the `TransposeGraph` subclass: when `base` is not
      null this object is a transposed view of `base`, its own lists are the
      unused ones of the no-argument constructor, and the overridden methods
      delegate to `base` with the endpoints swapped. */
  class WDGraph {
    var numVert: int
    var outLists: seq<seq<Edge>>
    var inLists: seq<seq<Edge>>
    const base: WDGraph?

    ghost predicate Valid()
      reads this, base
    {
      if base == null then
        numVert == |outLists| && Mirrored(outLists, inLists)
      else
        base != this && base.base == null &&
        base.numVert == |base.outLists| && Mirrored(base.outLists, base.inLists)
    }

    /** The lists that `outNeighbors` reads. */
    function Out(): seq<seq<Edge>>
      reads this, base
      requires Valid()
    {
      if base == null then outLists else base.inLists
    }

    /** The lists that `inNeighbors` reads. */
    function In(): seq<seq<Edge>>
      reads this, base
      requires Valid()
    {
      if base == null then inLists else base.outLists
    }

    /** The graph seen through either form is mirrored. */
    lemma ViewMirrored()
      requires Valid()
      ensures Mirrored(Out(), In())
    {
      if base != null {
        TransposeMirrored(base.outLists, base.inLists);
      }
    }

    /** The loop of the constructor: `n` empty out-lists and in-lists. */
    constructor Init(n: nat)
      ensures Valid() && base == null && numVert == n
      ensures |outLists| == n && forall i :: 0 <= i < n ==> outLists[i] == [] && inLists[i] == []
    {
      numVert := n;
      var outs: seq<seq<Edge>> := [];
      var ins: seq<seq<Edge>> := [];
      var i := 0;
      while i < n
        invariant 0 <= i <= n && |outs| == i && |ins| == i
        invariant forall j :: 0 <= j < i ==> outs[j] == [] && ins[j] == []
      {
        outs := outs + [[]];
        ins := ins + [[]];
        i := i + 1;
      }
      outLists, inLists := outs, ins;
      base := null;
    }

    /** `new WDGraph(n)`. The constructor does not test `n`: a negative `n` fails
        in the array allocation with NegativeArraySizeException. */
    static method New(n: int) returns (r: Result<WDGraph>)
      ensures n < 0 <==> r.Failure?
      ensures r.Failure? ==> r.error == NegativeArraySize
      ensures r.Success? ==> fresh(r.value) && r.value.Valid() && r.value.base == null
      ensures r.Success? ==> r.value.GetSize() == n
      ensures r.Success? ==> forall i :: 0 <= i < n ==> r.value.outLists[i] == [] && r.value.inLists[i] == []
    {
      if n < 0 {
        return Failure(NegativeArraySize);
      }
      var g := new WDGraph.Init(n);
      return Success(g);
    }

    /** `new TransposeGraph(g)`: the no-argument superclass constructor leaves
        the view's own fields empty; everything is read through `g`. */
    constructor Transpose(g: WDGraph)
      requires g.Valid() && g.base == null
      ensures Valid() && base == g
      ensures Out() == g.inLists && In() == g.outLists
      ensures numVert == 0 && outLists == [] && inLists == []
    {
      numVert, outLists, inLists := 0, [], [];
      base := g;
    }

    /** `getSize()`; the view answers with `g.getSize()`. */
    function GetSize(): (n: int)
      reads this, base
      requires Valid()
      ensures n == |Out()| == |In()|
    {
      if base == null then numVert else base.numVert
    }

    /** `hasEdge(u, v)`, which the view does not override: on the view it
        reads the view's own missing out-lists and fails. */
    function HasEdge(u: int, v: int): (r: Result<bool>)
      reads this, base
      requires Valid()
      ensures base != null ==> r == Failure(NullPointer)
      ensures base == null && !(0 <= u < |outLists| && 0 <= v < |outLists|) ==> r == Failure(IllegalArgument)
      ensures base == null && 0 <= u < |outLists| && 0 <= v < |outLists| ==> r == Success(Arc(outLists, u, v))
    {
      if base != null then Failure(NullPointer)
      else if u >= |outLists| || u < 0 then Failure(IllegalArgument)
      else if v >= |outLists| || v < 0 then Failure(IllegalArgument)
      else
        InNeighborSet(outLists[u], v);
        Success(IndexOfNeighbor(outLists[u], v) >= 0)
    }

    /** `getWeight(u, v)`; the view answers with `g.getWeight(v, u)`. */
    function GetWeight(u: int, v: int): (r: Result<int>)
      reads this, base
      requires Valid()
      decreases if base == null then 0 else 1
      ensures !(0 <= u < GetSize() && 0 <= v < GetSize()) ==> r == Failure(IllegalArgument)
      ensures 0 <= u < GetSize() && 0 <= v < GetSize() && !Arc(Out(), u, v) ==> r == Failure(NoSuchElement)
      ensures Arc(Out(), u, v) ==> r == Success(WeightTo(Out()[u], v))
    {
      if base != null then
        var r := base.GetWeight(v, u);
        if 0 <= u < |base.outLists| && 0 <= v < |base.outLists| then
          MirrorWeights(base.outLists, base.inLists, v, u);
          r
        else r
      else if u >= |outLists| || u < 0 then Failure(IllegalArgument)
      else if v >= |outLists| || v < 0 then Failure(IllegalArgument)
      else if !HasEdge(u, v).value then Failure(NoSuchElement)
      else
        InNeighborSet(outLists[u], v);
        Success(outLists[u][IndexOfNeighbor(outLists[u], v)].weight)
    }

    /** The loop shared by `outNeighbors` and `inNeighbors`. */
    static method CollectNeighbors(list: seq<Edge>) returns (ans: set<int>)
      ensures ans == NeighborSet(list)
    {
      ans := {};
      var i := 0;
      while i < |list|
        invariant 0 <= i <= |list|
        invariant ans == NeighborSet(list[..i])
      {
        assert list[..i + 1] == list[..i] + [list[i]];
        ans := ans + {list[i].neighbor};
        i := i + 1;
      }
      assert list[..i] == list;
    }

    /** `inNeighbors(v)`; the view answers with `g.outNeighbors(v)`. The
        method does not range-check `v`: the array access fails. */
    method InNeighbors(v: int) returns (r: Result<set<int>>)
      requires Valid()
      ensures !(0 <= v < GetSize()) ==> r == Failure(IndexOutOfBounds)
      ensures 0 <= v < GetSize() ==> r == Success(NeighborSet(In()[v]))
    {
      if base != null {
        if v < 0 || v >= |base.outLists| {
          return Failure(IndexOutOfBounds);
        }
        var ans := CollectNeighbors(base.outLists[v]);
        return Success(ans);
      }
      if v < 0 || v >= |inLists| {
        return Failure(IndexOutOfBounds);
      }
      var ans := CollectNeighbors(inLists[v]);
      return Success(ans);
    }

    /** `outNeighbors(v)`; the view answers with `g.inNeighbors(v)`. The
        method does not range-check `v`: the array access fails. */
    method OutNeighbors(v: int) returns (r: Result<set<int>>)
      requires Valid()
      ensures !(0 <= v < GetSize()) ==> r == Failure(IndexOutOfBounds)
      ensures 0 <= v < GetSize() ==> r == Success(NeighborSet(Out()[v]))
      ensures 0 <= v < GetSize() ==> forall x :: x in r.value <==> Arc(Out(), v, x)
    {
      if base != null {
        r := base.InNeighbors(v);
        return;
      }
      if v < 0 || v >= |outLists| {
        return Failure(IndexOutOfBounds);
      }
      var ans := CollectNeighbors(outLists[v]);
      return Success(ans);
    }

    /** `addEdge(u, v, weight)`: a self-loop is refused before the range
        checks; an existing arc is kept with its weight and the answer is
        `false`; otherwise `Edge(v, weight)` is appended to `out[u]` and
        `Edge(u, weight)` to `in[v]`. The view adds `v -> u` to `g`. */
    method AddEdge(u: int, v: int, weight: int) returns (r: Result<bool>)
      requires Valid()
      modifies if base == null then this else base
      decreases if base == null then 0 else 1
      ensures Valid() && GetSize() == old(GetSize())
      ensures u == v ==> r == Failure(IllegalArgument)
      ensures !(0 <= u < GetSize() && 0 <= v < GetSize()) ==> r == Failure(IllegalArgument)
      ensures u != v && 0 <= u < old(GetSize()) && 0 <= v < old(GetSize()) ==> r.Success?
      ensures r.Failure? || !r.value ==> Out() == old(Out()) && In() == old(In())
      ensures r.Success? ==> (r.value <==> !old(Arc(Out(), u, v))) && Arc(Out(), u, v)
      ensures r.Success? && r.value ==>
                && Out() == old(Out())[u := old(Out())[u] + [Edge(v, weight)]]
                && In() == old(In())[v := old(In())[v] + [Edge(u, weight)]]
    {
      if base != null {
        if 0 <= u < |base.outLists| && 0 <= v < |base.outLists| {
          MirrorWeights(base.outLists, base.inLists, v, u);
        }
        r := base.AddEdge(v, u, weight);
        if r.Success? {
          MirrorWeights(base.outLists, base.inLists, v, u);
        }
        return;
      }
      if u == v {
        return Failure(IllegalArgument);
      }
      if u >= |outLists| || u < 0 {
        return Failure(IllegalArgument);
      }
      if v >= |outLists| || v < 0 {
        return Failure(IllegalArgument);
      }
      var has := HasEdge(u, v);
      if has.value {
        return Success(false);
      }
      AddArcKeepsMirrored(outLists, inLists, u, v, weight);
      outLists := outLists[u := outLists[u] + [Edge(v, weight)]];
      inLists := inLists[v := inLists[v] + [Edge(u, weight)]];
      return Success(true);
    }
  }

  /** Appending an entry for a vertex the list does not name keeps the
      neighbours distinct. */
  lemma AppendDistinct(list: seq<Edge>, e: Edge)
    requires DistinctNeighbors(list) && forall x :: x in list ==> x.neighbor != e.neighbor
    ensures DistinctNeighbors(list + [e])
  {
    forall i | 0 <= i < |list| ensures list[i].neighbor != e.neighbor {
      assert list[i] in list;
    }
  }

  /** Appending the entries of the arc `u -> v` keeps the two families in
      correspondence. */
  lemma AppendPairs(out: seq<seq<Edge>>, inn: seq<seq<Edge>>, u: int, v: int, w: int)
    requires |out| == |inn| && 0 <= u < |out| && 0 <= v < |out|
    requires forall a, b, x :: 0 <= a < |out| && 0 <= b < |out| ==> (Carries(out[a], b, x) <==> Carries(inn[b], a, x))
    ensures var out' := out[u := out[u] + [Edge(v, w)]];
            var inn' := inn[v := inn[v] + [Edge(u, w)]];
            forall a, b, x :: 0 <= a < |out'| && 0 <= b < |out'| ==> (Carries(out'[a], b, x) <==> Carries(inn'[b], a, x))
  {
    var out' := out[u := out[u] + [Edge(v, w)]];
    var inn' := inn[v := inn[v] + [Edge(u, w)]];
    forall a, b, x | 0 <= a < |out'| && 0 <= b < |out'|
      ensures Carries(out'[a], b, x) <==> Carries(inn'[b], a, x)
    {
      AppendCarries(out[a], Edge(v, w), b, x);
      AppendCarries(inn[b], Edge(u, w), a, x);
    }
  }

  /** An entry is carried by a list with `e` appended exactly when the list
      carries it or it is `e`. */
  lemma AppendCarries(list: seq<Edge>, e: Edge, v: int, w: int)
    ensures Carries(list + [e], v, w) <==> Carries(list, v, w) || e == Edge(v, w)
  {
    if Edge(v, w) in list + [e] {
      var k :| 0 <= k < |list + [e]| && (list + [e])[k] == Edge(v, w);
      if k < |list| {
        assert list[k] == Edge(v, w);
      }
    }
    if Edge(v, w) in list {
      var k :| 0 <= k < |list| && list[k] == Edge(v, w);
      assert (list + [e])[k] == Edge(v, w);
    }
    assert (list + [e])[|list|] == e;
  }

  /** Appending the entries of the arc `u -> v` keeps every list naming
      other vertices of the graph. */
  lemma AppendInRange(adj: seq<seq<Edge>>, u: int, v: int, w: int)
    requires InRange(adj) && 0 <= u < |adj| && 0 <= v < |adj| && u != v
    ensures InRange(adj[u := adj[u] + [Edge(v, w)]])
  {
  }

  /** Appending a fresh arc to both list families keeps them mirrored, and
      the arc then carries the given weight. */
  lemma AddArcKeepsMirrored(out: seq<seq<Edge>>, inn: seq<seq<Edge>>, u: int, v: int, w: int)
    requires Mirrored(out, inn) && 0 <= u < |out| && 0 <= v < |out| && u != v && !Arc(out, u, v)
    ensures var out' := out[u := out[u] + [Edge(v, w)]];
            var inn' := inn[v := inn[v] + [Edge(u, w)]];
            && Mirrored(out', inn')
            && Arc(out', u, v) && WeightTo(out'[u], v) == w
  {
    var out' := out[u := out[u] + [Edge(v, w)]];
    var inn' := inn[v := inn[v] + [Edge(u, w)]];
    assert !Arc(inn, v, u) by { MirrorWeights(out, inn, u, v); }
    forall x | x in out[u] ensures x.neighbor != v {
      assert x.neighbor in NeighborSet(out[u]);
    }
    forall x | x in inn[v] ensures x.neighbor != u {
      assert x.neighbor in NeighborSet(inn[v]);
    }
    AppendDistinct(out[u], Edge(v, w));
    AppendDistinct(inn[v], Edge(u, w));
    AppendInRange(out, u, v, w);
    AppendInRange(inn, v, u, w);
    AppendPairs(out, inn, u, v, w);
    assert Edge(v, w) in out'[u];
    DistinctEntry(out'[u], v, w);
  }

  /** Arcs of lists that are in range end at vertices of the graph. */
  lemma ArcInRange(adj: seq<seq<Edge>>, u: int, v: int)
    requires InRange(adj) && Arc(adj, u, v)
    ensures 0 <= v < |adj| && v != u
  {
    var e :| e in adj[u] && e.neighbor == v;
    var k :| 0 <= k < |adj[u]| && adj[u][k] == e;
  }

  /** `p` is a directed path of `adj`: each vertex has an arc to the next. */
  predicate IsPath(adj: seq<seq<Edge>>, p: seq<int>)
  {
    |p| >= 1 && forall k :: 0 <= k < |p| - 1 ==> Arc(adj, p[k], p[k + 1])
  }

  /** There is a directed path from `a` to `b` (of no arcs when `a == b`). */
  ghost predicate Reaches(adj: seq<seq<Edge>>, a: int, b: int)
  {
    exists p :: IsPath(adj, p) && p[0] == a && p[|p| - 1] == b
  }

  lemma ReachesSelf(adj: seq<seq<Edge>>, a: int)
    ensures Reaches(adj, a, a)
  {
    assert IsPath(adj, [a]);
  }

  /** An arc followed by a path is a path. */
  lemma ReachesArcThen(adj: seq<seq<Edge>>, a: int, b: int, c: int)
    requires Arc(adj, a, b) && Reaches(adj, b, c)
    ensures Reaches(adj, a, c)
  {
    var p :| IsPath(adj, p) && p[0] == b && p[|p| - 1] == c;
    var q := [a] + p;
    forall k | 0 <= k < |q| - 1 ensures Arc(adj, q[k], q[k + 1]) {
      if k > 0 {
        assert q[k] == p[k - 1] && q[k + 1] == p[k];
      }
    }
    assert IsPath(adj, q) && q[0] == a && q[|q| - 1] == c;
  }

  /** Reachability is transitive. */
  lemma ReachesTrans(adj: seq<seq<Edge>>, a: int, b: int, c: int)
    requires Reaches(adj, a, b) && Reaches(adj, b, c)
    ensures Reaches(adj, a, c)
  {
    var p :| IsPath(adj, p) && p[0] == a && p[|p| - 1] == b;
    var q :| IsPath(adj, q) && q[0] == b && q[|q| - 1] == c;
    var w := p + q[1..];
    forall k | 0 <= k < |w| - 1 ensures Arc(adj, w[k], w[k + 1]) {
      if k < |p| - 1 {
        assert w[k] == p[k] && w[k + 1] == p[k + 1];
      } else {
        assert w[k] == q[k - |p| + 1] && w[k + 1] == q[k - |p| + 2];
      }
    }
    assert IsPath(adj, w) && w[0] == a && w[|w| - 1] == c;
  }

  /** A set that contains `a` and every arc's end out of any of its
      vertices contains everything `a` reaches. */
  lemma ClosedReaches(adj: seq<seq<Edge>>, S: set<int>, a: int, b: int)
    requires a in S && Reaches(adj, a, b)
    requires forall u, z :: u in S && Arc(adj, u, z) ==> z in S
    ensures b in S
  {
    var p :| IsPath(adj, p) && p[0] == a && p[|p| - 1] == b;
    ClosedPath(adj, S, p, |p| - 1);
  }

  lemma {:induction false} ClosedPath(adj: seq<seq<Edge>>, S: set<int>, p: seq<int>, k: nat)
    requires IsPath(adj, p) && p[0] in S && k < |p|
    requires forall u, z :: u in S && Arc(adj, u, z) ==> z in S
    ensures p[k] in S
  {
    if k > 0 {
      ClosedPath(adj, S, p, k - 1);
      assert Arc(adj, p[k - 1], p[k]);
    }
  }

  /** Reversing every arc reverses reachability. */
  lemma TransposeReaches(out: seq<seq<Edge>>, inn: seq<seq<Edge>>, a: int, b: int)
    requires Mirrored(out, inn)
    ensures Reaches(inn, a, b) <==> Reaches(out, b, a)
  {
    TransposeMirrored(out, inn);
    if Reaches(inn, a, b) {
      var p :| IsPath(inn, p) && p[0] == a && p[|p| - 1] == b;
      ReversePath(inn, out, p);
    }
    if Reaches(out, b, a) {
      var p :| IsPath(out, p) && p[0] == b && p[|p| - 1] == a;
      ReversePath(out, inn, p);
    }
  }

  /** A path of `adj` read backwards is a path of `rev` when `rev` holds
      exactly the reversed arcs. */
  lemma ReversePath(adj: seq<seq<Edge>>, rev: seq<seq<Edge>>, p: seq<int>)
    requires IsPath(adj, p)
    requires forall u, v :: Arc(adj, u, v) ==> Arc(rev, v, u)
    ensures Reaches(rev, p[|p| - 1], p[0])
  {
    var q := seq(|p|, k requires 0 <= k < |p| => p[|p| - 1 - k]);
    forall k | 0 <= k < |q| - 1 ensures Arc(rev, q[k], q[k + 1]) {
      assert Arc(adj, p[|p| - 2 - k], p[|p| - 1 - k]);
    }
    assert IsPath(rev, q) && q[0] == p[|p| - 1] && q[|q| - 1] == p[0];
  }
}
