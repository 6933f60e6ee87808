/** Dijkstra's shortest paths over a `WDGraph` (Dijkstra.java), with the
    repository's `BinaryMinHeap` as the priority queue. Weights are integers
    and `Double.POSITIVE_INFINITY` is the `Infinity` distance. */
module Dijkstra {
  import opened Wrappers
  import opened WDGraphs
  import opened MinHeaps

  /** An entry of `distances`. */
  datatype Distance = Infinity | Finite(n: int)

  /** The weight of the arc `u -> v`. */
  ghost function W(adj: seq<seq<Edge>>, u: int, v: int): int
    requires Arc(adj, u, v)
  {
    WeightTo(adj[u], v)
  }

  /** Every arc weighs at least zero. */
  ghost predicate NonNegative(adj: seq<seq<Edge>>)
  {
    forall u, v :: Arc(adj, u, v) ==> W(adj, u, v) >= 0
  }

  /** The total weight of the arcs of a path. */
  ghost function PathWeight(adj: seq<seq<Edge>>, p: seq<int>): int
    requires IsPath(adj, p)
    decreases |p|
  {
    if |p| == 1 then 0
    else
      assert IsPath(adj, p[1..]) by {
        forall k | 0 <= k < |p| - 2 ensures Arc(adj, p[1..][k], p[1..][k + 1]) {
          assert Arc(adj, p[k + 1], p[k + 2]);
        }
      }
      W(adj, p[0], p[1]) + PathWeight(adj, p[1..])
  }

  /** Putting an arc in front of a path adds its weight. */
  lemma PrependArc(adj: seq<seq<Edge>>, a: int, p: seq<int>)
    requires IsPath(adj, p) && Arc(adj, a, p[0])
    ensures IsPath(adj, [a] + p) && PathWeight(adj, [a] + p) == W(adj, a, p[0]) + PathWeight(adj, p)
  {
    var q := [a] + p;
    forall k | 0 <= k < |q| - 1 ensures Arc(adj, q[k], q[k + 1]) {
      if k > 0 {
        assert q[k] == p[k - 1] && q[k + 1] == p[k];
      }
    }
    assert q[1..] == p;
  }

  /** Every arc out of a finite vertex is relaxed: the distance at its end is
      finite and no more than the distance at its start plus its weight. The
      exceptions are the vertices still queued in `E` and the arcs from `x`
      to the neighbours in `rest`, which are still to be scanned. */
  ghost predicate RelaxedExcept(adj: seq<seq<Edge>>, d: seq<Distance>, E: map<int, int>, x: int, rest: set<int>)
  {
    forall u, z :: 0 <= u < |d| && d[u].Finite? && u !in E && Arc(adj, u, z) && !(u == x && z in rest) ==>
      0 <= z < |d| && d[z].Finite? && d[z].n <= d[u].n + W(adj, u, z)
  }

  /** With every arc relaxed, no path from a finite vertex `p[0]` is shorter
      than the distance at its end says. */
  lemma {:induction false} NoShorter(adj: seq<seq<Edge>>, d: seq<Distance>, p: seq<int>)
    requires |d| == |adj| && InRange(adj) && RelaxedExcept(adj, d, map[], -1, {})
    requires IsPath(adj, p) && 0 <= p[0] < |d| && d[p[0]].Finite?
    ensures 0 <= p[|p| - 1] < |d| && d[p[|p| - 1]].Finite?
    ensures d[p[|p| - 1]].n <= d[p[0]].n + PathWeight(adj, p)
    decreases |p|
  {
    if |p| > 1 {
      assert Arc(adj, p[0], p[1]);
      var q := p[1..];
      assert IsPath(adj, q) by {
        forall k | 0 <= k < |q| - 1 ensures Arc(adj, q[k], q[k + 1]) {
          assert Arc(adj, p[k + 1], p[k + 2]);
        }
      }
      NoShorter(adj, d, q);
      assert q[|q| - 1] == p[|p| - 1];
    }
  }

  /** The parent of a finite vertex `v`: a finite in-neighbour whose distance
      plus the arc's weight is at most `v`'s, and, when they are equal, whose
      distance was set earlier (a smaller `stamp`). */
  ghost predicate ParentOk(adj: seq<seq<Edge>>, d: seq<Distance>, parent: seq<Option<int>>, stamp: seq<int>, v: int)
    requires 0 <= v < |d| == |parent| == |stamp|
  {
    && d[v].Finite? && parent[v].Some?
    && var p := parent[v].value;
       && 0 <= p < |d| && Arc(adj, p, v) && d[p].Finite?
       && d[p].n + W(adj, p, v) <= d[v].n
       && (d[p].n + W(adj, p, v) == d[v].n ==> stamp[p] < stamp[v])
  }

  /** The invariant of the search, apart from the queue: `src` is at
      distance 0, finite distances are never negative, every other finite
      vertex has a parent as above, an infinite one has none, and every
      stamp is below the clock `time`. */
  ghost predicate Labels(adj: seq<seq<Edge>>, src: int, d: seq<Distance>, parent: seq<Option<int>>,
                         stamp: seq<int>, time: int)
  {
    && |d| == |parent| == |stamp| == |adj| && InRange(adj) && NonNegative(adj)
    && 0 <= src < |d| && d[src] == Finite(0)
    && (forall v :: 0 <= v < |d| && d[v].Finite? ==> d[v].n >= 0)
    && (forall v :: 0 <= v < |d| ==> 0 <= stamp[v] < time)
    && (forall v :: 0 <= v < |d| && v != src && d[v].Finite? ==> ParentOk(adj, d, parent, stamp, v))
    && (forall v :: 0 <= v < |d| && d[v].Infinity? ==> parent[v].None?)
  }

  /** The queue holds finite vertices keyed by their distance. */
  ghost predicate Queued(d: seq<Distance>, E: map<int, int>)
  {
    forall v :: v in E ==> 0 <= v < |d| && d[v].Finite? && E[v] == d[v].n
  }

  /** `distances[i] > distances[x] + w`, with `distances[x]` finite. */
  predicate Greater(di: Distance, bound: int)
  {
    di.Infinity? || di.n > bound
  }

  /** The number of infinite distances. */
  ghost function InfCount(d: seq<Distance>): nat
  {
    if |d| == 0 then 0 else (if d[0].Infinity? then 1 else 0) + InfCount(d[1..])
  }

  /** The sum of the positive finite distances. */
  ghost function Pot(d: seq<Distance>): nat
  {
    if |d| == 0 then 0 else (if d[0].Finite? && d[0].n > 0 then d[0].n else 0) + Pot(d[1..])
  }

  /** Lowering a distance to a value that is not negative lowers the number
      of infinite distances, or keeps it and lowers their sum. */
  lemma {:induction false} LowerDistance(d: seq<Distance>, i: int, k: int)
    requires 0 <= i < |d| && 0 <= k && Greater(d[i], k)
    ensures var d' := d[i := Finite(k)];
            InfCount(d') < InfCount(d) || (InfCount(d') == InfCount(d) && Pot(d') < Pot(d))
    decreases i
  {
    var d' := d[i := Finite(k)];
    if i == 0 {
      assert d'[1..] == d[1..];
    } else {
      assert d'[1..] == d[1..][i - 1 := Finite(k)];
      LowerDistance(d[1..], i - 1, k);
    }
  }

  /** The measure `(a, b, c)` is below `(a0, b0, c0)` lexicographically. */
  predicate Below(a: int, b: int, c: int, a0: int, b0: int, c0: int)
  {
    a < a0 || (a == a0 && (b < b0 || (b == b0 && c < c0)))
  }

  /** The state of the scan of the out-neighbours `nbrs` of the extracted
      vertex `x`, of which `rest` are still to come. */
  ghost predicate Scanning(adj: seq<seq<Edge>>, src: int, d: seq<Distance>, parent: seq<Option<int>>,
                           stamp: seq<int>, time: int, E: map<int, int>, x: int, nbrs: set<int>, rest: set<int>)
  {
    && Labels(adj, src, d, parent, stamp, time) && Queued(d, E)
    && 0 <= x < |d| && d[x].Finite? && x !in E
    && rest <= nbrs && (forall z :: z in nbrs <==> Arc(adj, x, z))
    && RelaxedExcept(adj, d, E, x, rest)
  }

  /** Extracting `x` starts its scan. */
  lemma StartScan(adj: seq<seq<Edge>>, src: int, d: seq<Distance>, parent: seq<Option<int>>,
                  stamp: seq<int>, time: int, E: map<int, int>, x: int, nbrs: set<int>)
    requires Labels(adj, src, d, parent, stamp, time) && Queued(d, E) && x in E
    requires RelaxedExcept(adj, d, E, -1, {})
    requires forall z :: z in nbrs <==> Arc(adj, x, z)
    ensures Scanning(adj, src, d, parent, stamp, time, E - {x}, x, nbrs, nbrs)
  {
  }

  /** A neighbour that is not improved on is already relaxed. */
  lemma ScanSkip(adj: seq<seq<Edge>>, src: int, d: seq<Distance>, parent: seq<Option<int>>,
                 stamp: seq<int>, time: int, E: map<int, int>, x: int, nbrs: set<int>, rest: set<int>, i: int)
    requires Scanning(adj, src, d, parent, stamp, time, E, x, nbrs, rest) && i in rest
    requires !Greater(d[i], d[x].n + W(adj, x, i))
    ensures Scanning(adj, src, d, parent, stamp, time, E, x, nbrs, rest - {i})
  {
  }

  /** An improved neighbour keeps the labels: `i` gets parent `x` and the
      newest stamp, and `i`'s children now lie strictly above it. */
  lemma RelaxLabels(adj: seq<seq<Edge>>, src: int, d: seq<Distance>, parent: seq<Option<int>>,
                    stamp: seq<int>, time: int, x: int, i: int)
    requires Labels(adj, src, d, parent, stamp, time)
    requires 0 <= x < |d| && d[x].Finite? && Arc(adj, x, i) && Greater(d[i], d[x].n + W(adj, x, i))
    ensures 0 <= i < |d| && i != src && i != x
    ensures Labels(adj, src, d[i := Finite(d[x].n + W(adj, x, i))], parent[i := Some(x)], stamp[i := time], time + 1)
  {
    ArcInRange(adj, x, i);
    var nd := d[x].n + W(adj, x, i);
    var d', parent', stamp' := d[i := Finite(nd)], parent[i := Some(x)], stamp[i := time];
    forall v | 0 <= v < |d| && v != src && d'[v].Finite? ensures ParentOk(adj, d', parent', stamp', v) {
      if v != i {
        assert ParentOk(adj, d, parent, stamp, v);
      }
    }
  }

  /** An improved neighbour is queued with its new distance, and the arcs
      into it from relaxed vertices stay relaxed. */
  lemma RelaxQueue(adj: seq<seq<Edge>>, src: int, d: seq<Distance>, parent: seq<Option<int>>,
                   stamp: seq<int>, time: int, E: map<int, int>, x: int, nbrs: set<int>, rest: set<int>, i: int, nd: int)
    requires Scanning(adj, src, d, parent, stamp, time, E, x, nbrs, rest) && i in rest
    requires Arc(adj, x, i) && nd == d[x].n + W(adj, x, i) && Greater(d[i], nd)
    ensures Scanning(adj, src, d[i := Finite(nd)], parent[i := Some(x)], stamp[i := time], time + 1,
                     E[i := nd], x, nbrs, rest - {i})
  {
    RelaxLabels(adj, src, d, parent, stamp, time, x, i);
    RelaxKeepsRelaxed(adj, d, E, x, rest, i, nd);
    RequeueKeepsQueued(d, E, i, nd);
  }

  /** Setting `d[i]` to `nd` and queueing (or re-keying) `i` with key `nd`
      keeps every queued key equal to its distance. */
  lemma RequeueKeepsQueued(d: seq<Distance>, E: map<int, int>, i: int, nd: int)
    requires Queued(d, E) && 0 <= i < |d|
    ensures Queued(d[i := Finite(nd)], E[i := nd])
  {
  }

  /** Lowering `d[i]` to `nd` and queueing `i` relaxes the arc `x -> i`
      and keeps every other arc relaxed. */
  lemma RelaxKeepsRelaxed(adj: seq<seq<Edge>>, d: seq<Distance>, E: map<int, int>, x: int, rest: set<int>, i: int, nd: int)
    requires RelaxedExcept(adj, d, E, x, rest) && InRange(adj) && |d| == |adj|
    requires 0 <= x < |d| && d[x].Finite? && i in rest && Arc(adj, x, i)
    requires nd == d[x].n + W(adj, x, i) && Greater(d[i], nd)
    ensures RelaxedExcept(adj, d[i := Finite(nd)], E[i := nd], x, rest - {i})
  {
    ArcInRange(adj, x, i);
    var d' := d[i := Finite(nd)];
    forall u, z | 0 <= u < |d'| && d'[u].Finite? && u !in E[i := nd] && Arc(adj, u, z) && !(u == x && z in rest - {i})
      ensures 0 <= z < |d'| && d'[z].Finite? && d'[z].n <= d'[u].n + W(adj, u, z)
    {
      assert d'[u] == d[u];
      if !(u == x && z == i) {
        assert 0 <= z < |d| && d[z].Finite? && d[z].n <= d[u].n + W(adj, u, z);
      }
    }
  }

  /** `distances[x] + g.getWeight(x, i)` for each out-neighbour `i` of `x`,
      lowering the distance of, re-parenting and queueing (or re-keying)
      every `i` it improves on. */
  method ScanArcs(g: WDGraph, heap: BinaryMinHeap<int>, distances: array<Distance>, parent: array<Option<int>>,
                  x: int, ghost adj: seq<seq<Edge>>, ghost src: int, ghost stamp: seq<int>, ghost time: int)
      returns (ghost stamp': seq<int>, ghost time': int)
    requires g.Valid() && heap.Valid() && adj == g.Out() && 0 <= x < |adj|
    requires Scanning(adj, src, distances[..], parent[..], stamp, time, heap.Elements(), x,
                      NeighborSet(adj[x]), NeighborSet(adj[x]))
    modifies heap, distances, parent
    ensures heap.Valid()
    ensures Scanning(adj, src, distances[..], parent[..], stamp', time', heap.Elements(), x, NeighborSet(adj[x]), {})
    ensures Below(InfCount(distances[..]), Pot(distances[..]), |heap.list|,
                  InfCount(old(distances[..])), Pot(old(distances[..])), old(|heap.list|) + 1)
  {
    ghost var a0, b0, c0 := InfCount(distances[..]), Pot(distances[..]), |heap.list|;
    stamp', time' := stamp, time;
    var r := g.OutNeighbors(x);
    var rest := r.value;
    ghost var nbrs := rest;
    assert nbrs == NeighborSet(adj[x]);
    while rest != {}
      invariant g.Valid() && adj == g.Out() && heap.Valid()
      invariant Scanning(adj, src, distances[..], parent[..], stamp', time', heap.Elements(), x, nbrs, rest)
      invariant Below(InfCount(distances[..]), Pot(distances[..]), |heap.list|, a0, b0, c0 + 1)
      decreases |rest|
    {
      assert exists y :: y in rest by {
        // a set with no member is empty
        assert (forall y :: y !in rest) ==> rest == {};
      }
      var i :| i in rest;
      stamp', time' := ScanOne(g, heap, distances, parent, x, i, adj, src, nbrs, rest, stamp', time');
      rest := rest - {i};
    }
  }

  /** Lines 50-58 for the out-neighbour `i` of `x`. */
  method ScanOne(g: WDGraph, heap: BinaryMinHeap<int>, distances: array<Distance>, parent: array<Option<int>>,
                 x: int, i: int, ghost adj: seq<seq<Edge>>, ghost src: int, ghost nbrs: set<int>, ghost rest: set<int>,
                 ghost stamp: seq<int>, ghost time: int)
      returns (ghost stamp': seq<int>, ghost time': int)
    requires g.Valid() && heap.Valid() && i in rest && adj == g.Out()
    requires Scanning(adj, src, distances[..], parent[..], stamp, time, heap.Elements(), x, nbrs, rest)
    modifies heap, distances, parent
    ensures g.Valid() && adj == g.Out() && heap.Valid()
    ensures Scanning(adj, src, distances[..], parent[..], stamp', time', heap.Elements(), x, nbrs, rest - {i})
    ensures || (distances[..] == old(distances[..]) && |heap.list| == old(|heap.list|))
            || InfCount(distances[..]) < InfCount(old(distances[..]))
            || (InfCount(distances[..]) == InfCount(old(distances[..])) && Pot(distances[..]) < Pot(old(distances[..])))
  {
    ghost var d, p, E := distances[..], parent[..], heap.Elements();
    stamp', time' := stamp, time;
    ScanArc(adj, src, d, p, stamp, time, E, x, nbrs, rest, i);
    var w := g.GetWeight(x, i).value;
    assert w == W(adj, x, i);
    if Greater(distances[i], distances[x].n + w) {
      var nd := distances[x].n + w;
      RelaxQueue(adj, src, d, p, stamp, time, E, x, nbrs, rest, i, nd);
      LowerDistance(d, i, nd);
      Relax(g, adj, heap, distances, parent, x, i, nd);
      stamp', time' := stamp[i := time], time + 1;
    } else {
      ScanSkip(adj, src, d, p, stamp, time, E, x, nbrs, rest, i);
    }
  }

  /** The facts about a neighbour `i` still to be scanned that the step needs. */
  lemma ScanArc(adj: seq<seq<Edge>>, src: int, d: seq<Distance>, parent: seq<Option<int>>,
                stamp: seq<int>, time: int, E: map<int, int>, x: int, nbrs: set<int>, rest: set<int>, i: int)
    requires Scanning(adj, src, d, parent, stamp, time, E, x, nbrs, rest) && i in rest
    ensures Arc(adj, x, i) && 0 <= x < |d| && 0 <= i < |d| && d[x].Finite? && d[x].n >= 0 && W(adj, x, i) >= 0
    ensures Queued(d, E) && |d| == |parent| == |adj|
  {
    ArcInRange(adj, x, i);
  }

  /** Lines 51-57 for one improved neighbour `i`: its distance and parent
      are set, and it is re-keyed when queued and added otherwise. */
  method Relax(g: WDGraph, ghost adj: seq<seq<Edge>>, heap: BinaryMinHeap<int>, distances: array<Distance>,
               parent: array<Option<int>>, x: int, i: int, nd: int)
    requires g.Valid() && adj == g.Out()
    requires heap.Valid() && distances.Length == parent.Length && 0 <= i < distances.Length
    requires Queued(distances[..], heap.Elements()) && Greater(distances[i], nd)
    modifies heap, distances, parent
    ensures g.Valid() && adj == g.Out()
    ensures heap.Valid() && heap.Elements() == old(heap.Elements())[i := nd]
    ensures distances[..] == old(distances[..])[i := Finite(nd)]
    ensures parent[..] == old(parent[..])[i := Some(x)]
  {
    distances[i] := Finite(nd);
    parent[i] := Some(x);
    if heap.ContainsValue(i) {
      var _ := heap.DecreaseKey(i, Some(nd));
    } else {
      var _ := heap.Add(Some(nd), i);
    }
  }

  /** Once every arc out of `x` is scanned, only the queued vertices are
      left unrelaxed. */
  lemma ScanDone(adj: seq<seq<Edge>>, src: int, d: seq<Distance>, parent: seq<Option<int>>,
                 stamp: seq<int>, time: int, E: map<int, int>, x: int, nbrs: set<int>)
    requires Scanning(adj, src, d, parent, stamp, time, E, x, nbrs, {})
    ensures Labels(adj, src, d, parent, stamp, time) && Queued(d, E) && RelaxedExcept(adj, d, E, -1, {})
  {
  }

  /** The state after lines 36-46: only `src` is finite and queued, no
      vertex has a parent, and every stamp is 0. */
  lemma InitLabels(adj: seq<seq<Edge>>, src: int, d: seq<Distance>, parent: seq<Option<int>>)
    requires |d| == |parent| == |adj| && InRange(adj) && NonNegative(adj) && 0 <= src < |d|
    requires d[src] == Finite(0) && forall v :: 0 <= v < |d| && v != src ==> d[v] == Infinity
    requires forall v :: 0 <= v < |parent| ==> parent[v] == None
    ensures Labels(adj, src, d, parent, seq(|d|, _ => 0), 1)
    ensures Queued(d, map[src := 0]) && RelaxedExcept(adj, d, map[src := 0], -1, {})
  {
  }

  /** Lines 45-60: the queue starts with `src` at distance 0; each extracted
      vertex has its out-arcs scanned until the queue is empty. Afterwards
      every arc out of a finite vertex is relaxed. The ghost `stamp` records
      when each distance was last lowered, on the clock `time`. */
  method Search(g: WDGraph, distances: array<Distance>, parent: array<Option<int>>, ghost adj: seq<seq<Edge>>,
                src: int)
      returns (ghost stamp: seq<int>, ghost time: int)
    requires g.Valid() && adj == g.Out() && InRange(adj) && NonNegative(adj)
    requires distances.Length == parent.Length == |adj| && 0 <= src < |adj|
    requires distances[src] == Finite(0) && forall v :: 0 <= v < distances.Length && v != src ==> distances[v] == Infinity
    requires forall v :: 0 <= v < parent.Length ==> parent[v] == None
    modifies distances, parent
    ensures Labels(adj, src, distances[..], parent[..], stamp, time)
    ensures RelaxedExcept(adj, distances[..], map[], -1, {})
  {
    InitLabels(adj, src, distances[..], parent[..]);
    stamp, time := seq(distances.Length, _ => 0), 1;
    var heap := new BinaryMinHeap<int>();
    var _ := heap.Add(Some(0), src);
    while !heap.IsEmpty()
      invariant g.Valid() && adj == g.Out() && heap.Valid() && fresh(heap)
      invariant Labels(adj, src, distances[..], parent[..], stamp, time) && Queued(distances[..], heap.Elements())
      invariant RelaxedExcept(adj, distances[..], heap.Elements(), -1, {})
      decreases InfCount(distances[..]), Pot(distances[..]), |heap.list|
    {
      ghost var E := heap.Elements();
      var r := heap.ExtractMin();
      var x := r.value;
      StartScan(adj, src, distances[..], parent[..], stamp, time, E, x, NeighborSet(adj[x]));
      stamp, time := ScanArcs(g, heap, distances, parent, x, adj, src, stamp, time);
      ScanDone(adj, src, distances[..], parent[..], stamp, time, heap.Elements(), x, NeighborSet(adj[x]));
    }
  }

  /** The walk from `i` back to `src` along parents is bounded by the
      distance at `i`, then by its stamp. */
  ghost function Height(d: seq<Distance>, i: int): int
  {
    if 0 <= i < |d| && d[i].Finite? then d[i].n else 0
  }

  ghost function Age(stamp: seq<int>, i: int): int
  {
    if 0 <= i < |stamp| then stamp[i] else 0
  }

  /** A parent is no further from `src`, and strictly older when equally
      far. */
  lemma ParentBelow(adj: seq<seq<Edge>>, src: int, d: seq<Distance>, parent: seq<Option<int>>,
                    stamp: seq<int>, time: int, i: int)
    requires Labels(adj, src, d, parent, stamp, time) && 0 <= i < |d| && i != src && parent[i].Some?
    ensures var p := parent[i].value;
            && d[i].Finite? && 0 <= p < |d| && d[p].Finite? && Arc(adj, p, i)
            && d[p].n + W(adj, p, i) <= d[i].n
            && 0 <= Height(d, p) <= Height(d, i) && 0 <= Age(stamp, p)
            && (Height(d, p) == Height(d, i) ==> Age(stamp, p) < Age(stamp, i))
  {
    assert ParentOk(adj, d, parent, stamp, i);
  }

  /** Lines 61-68: from `tgt`, each vertex is put in front of the answer and
      replaced by its parent until `src` is reached, and `src` goes in
      front. A vertex without a parent fails with `NullPointer` (the
      unboxing of `parent[i]`), and `tgt == getSize()` fails the access
      to `parent[tgt]`. */
  method WalkBack(parent: array<Option<int>>, src: int, tgt: int, ghost adj: seq<seq<Edge>>, ghost d: seq<Distance>,
                  ghost stamp: seq<int>, ghost time: int)
      returns (r: Result<seq<int>>)
    requires Labels(adj, src, d, parent[..], stamp, time) && 0 <= tgt <= parent.Length
    ensures tgt == parent.Length ==> r == Failure(IndexOutOfBounds)
    ensures tgt < parent.Length ==> (r.Success? <==> d[tgt].Finite?)
    ensures tgt < parent.Length && r.Failure? ==> r == Failure(NullPointer)
    ensures tgt == src ==> r == Success([src])
    ensures r.Success? ==> && IsPath(adj, r.value) && r.value[0] == src && r.value[|r.value| - 1] == tgt
                           && PathWeight(adj, r.value) <= d[tgt].n
  {
    var ans: seq<int> := [];
    var i := tgt;
    while i != src
      invariant 0 <= i <= parent.Length
      invariant ans == [] ==> i == tgt
      invariant tgt == src ==> ans == []
      invariant ans != [] ==> && i < parent.Length && tgt < parent.Length && d[i].Finite? && d[tgt].Finite?
                              && IsPath(adj, [i] + ans) && ans[|ans| - 1] == tgt
                              && d[i].n + PathWeight(adj, [i] + ans) <= d[tgt].n
      decreases Height(d, i), Age(stamp, i)
    {
      if i == parent.Length {
        return Failure(IndexOutOfBounds);
      }
      if parent[i].None? {
        return Failure(NullPointer);
      }
      ParentBelow(adj, src, d, parent[..], stamp, time, i);
      var p := parent[i].value;
      if ans == [] {
        assert IsPath(adj, [i]);
      }
      PrependArc(adj, p, [i] + ans);
      assert [p] + ([i] + ans) == [p] + [i] + ans;
      ans := [i] + ans;
      i := p;
    }
    if ans == [] {
      assert IsPath(adj, [src]) && PathWeight(adj, [src]) == 0;
      assert [src] + ans == [src];
    }
    assert d[src] == Finite(0);
    return Success([src] + ans);
  }

  /** `p` is a path from `src` to `tgt` and none weighs less. */
  ghost predicate LeastPath(adj: seq<seq<Edge>>, src: int, tgt: int, p: seq<int>)
  {
    && IsPath(adj, p) && p[0] == src && p[|p| - 1] == tgt
    && forall q :: IsPath(adj, q) && q[0] == src && q[|q| - 1] == tgt ==> PathWeight(adj, p) <= PathWeight(adj, q)
  }

  /** With every arc relaxed and `src` at 0, the distance of `tgt` is
      finite exactly when `src` reaches it, and no path from `src` to `tgt`
      weighs less than it; so the walk back along parents answers with a
      path of least weight exactly when there is a path. */
  lemma Optimal(adj: seq<seq<Edge>>, src: int, tgt: int, d: seq<Distance>, parent: seq<Option<int>>,
                stamp: seq<int>, time: int, r: Result<seq<int>>)
    requires Labels(adj, src, d, parent, stamp, time) && RelaxedExcept(adj, d, map[], -1, {}) && 0 <= tgt < |d|
    requires r.Success? <==> d[tgt].Finite?
    requires r.Success? ==> && IsPath(adj, r.value) && r.value[0] == src && r.value[|r.value| - 1] == tgt
                            && PathWeight(adj, r.value) <= d[tgt].n
    ensures r.Success? <==> Reaches(adj, src, tgt)
    ensures r.Success? ==> LeastPath(adj, src, tgt, r.value)
  {
    forall q | IsPath(adj, q) && q[0] == src && q[|q| - 1] == tgt
      ensures d[tgt].Finite? && d[tgt].n <= PathWeight(adj, q)
    {
      NoShorter(adj, d, q);
    }
  }

  /** Lines 36-68 once the range checks have passed. */
  method ShortestFrom(g: WDGraph, ghost adj: seq<seq<Edge>>, src: int, tgt: int) returns (r: Result<seq<int>>)
    requires g.Valid() && adj == g.Out() && NonNegative(adj) && 0 <= src <= |adj| && 0 <= tgt <= |adj|
    ensures src == |adj| || tgt == |adj| ==> r == Failure(IndexOutOfBounds)
    ensures src < |adj| && tgt < |adj| ==>
              && (r.Success? <==> Reaches(adj, src, tgt))
              && (r.Failure? ==> r == Failure(NullPointer))
              && (src == tgt ==> r == Success([src]))
    ensures r.Success? ==> LeastPath(adj, src, tgt, r.value)
  {
    var n := g.GetSize();
    var distances := new Distance[n](_ => Finite(0));
    for i := 0 to n
      invariant forall v :: 0 <= v < i ==> distances[v] == Infinity
    {
      distances[i] := Infinity;
    }
    if src == n {
      return Failure(IndexOutOfBounds);
    }
    distances[src] := Finite(0);
    var parent := new Option<int>[n](_ => None);
    g.ViewMirrored();
    ghost var stamp, time := Search(g, distances, parent, adj, src);
    r := WalkBack(parent, src, tgt, adj, distances[..], stamp, time);
    if tgt < n {
      Optimal(adj, src, tgt, distances[..], parent[..], stamp, time, r);
    }
  }

  /** `getShortestPath(g, src, tgt)`. The range checks allow `getSize()`
      itself, which then fails the access `distances[src]` (line 40) or
      `parent[tgt]` (line 65). An unreachable `tgt` has no parent and fails
      with `NullPointer`; `src == tgt` gives `[src]`. Otherwise the answer
      is a path from `src` to `tgt` of least weight. The weights must not
      be negative. */
  method GetShortestPath(g: WDGraph?, src: int, tgt: int) returns (r: Result<seq<int>>)
    requires g != null ==> g.Valid() && NonNegative(g.Out())
    ensures g == null ==> r == Failure(IllegalArgument)
    ensures g != null && !(0 <= src <= g.GetSize() && 0 <= tgt <= g.GetSize()) ==> r == Failure(IllegalArgument)
    ensures g != null && 0 <= src <= g.GetSize() && 0 <= tgt <= g.GetSize() && (src == g.GetSize() || tgt == g.GetSize()) ==>
              r == Failure(IndexOutOfBounds)
    ensures g != null && 0 <= src < g.GetSize() && 0 <= tgt < g.GetSize() ==>
              && (r.Success? <==> Reaches(g.Out(), src, tgt))
              && (r.Failure? ==> r == Failure(NullPointer))
              && (src == tgt ==> r == Success([src]))
    ensures r.Success? ==> g != null && LeastPath(g.Out(), src, tgt, r.value)
  {
    if g == null {
      return Failure(IllegalArgument);
    }
    if src < 0 || src > g.GetSize() {
      return Failure(IllegalArgument);
    }
    if tgt < 0 || tgt > g.GetSize() {
      return Failure(IllegalArgument);
    }
    r := ShortestFrom(g, g.Out(), src, tgt);
  }
}
