/** Widest path (WidestPath.java): flip every stored weight of the graph in
    place, take Kruskal's spanning forest of the result, and return the
    fewest-edge path between the two vertices in that forest. The source
    flips a weight by `0 - w`; the flip is a parameter here, so that the same
    steps can be run with the order-reversing `-1 - w` instead. */
module WidestPaths {
  import opened Wrappers
  import opened Graphs
  import opened BreadthFirst
  import VertexSets
  import Kruskal

  /** Java's `int` subtraction: the exact difference wrapped into 32 bits. */
  function Sub32(a: Int32, b: Int32): (r: Int32)
    ensures (r - (a - b)) % 0x1_0000_0000 == 0
  {
    var d := a - b;
    if d > 0x7fff_ffff then d - 0x1_0000_0000
    else if d < -0x8000_0000 then d + 0x1_0000_0000
    else d
  }

  /** `0 - w` on `int`: the negation, except that `Integer.MIN_VALUE` is its
      own negation. */
  function Neg32(w: Int32): (r: Int32)
    ensures w != -0x8000_0000 ==> r == -w
    ensures w == -0x8000_0000 ==> r == w
  {
    Sub32(0, w)
  }

  /** Negating twice gives back every weight, `MIN_VALUE` included. */
  lemma Neg32Twice(w: Int32)
    ensures Neg32(Neg32(w)) == w
  {
  }

  /** `-1 - w`, Java's `~w`: never overflows. */
  function Not32(w: Int32): Int32
  {
    -1 - w
  }

  // ---------------------------------------------------------------------
  // Flipping every weight

  /** An adjacency list with every weight flipped by `f`. */
  function ReweightedList(list: seq<UndirectedEdge>, f: Int32 -> Int32): (r: seq<UndirectedEdge>)
    ensures |r| == |list|
    ensures forall j :: 0 <= j < |list| ==>
              r[j].src == list[j].src && r[j].dest == list[j].dest && r[j].weight == f(list[j].weight)
  {
    seq(|list|, j requires 0 <= j < |list| => list[j].(weight := f(list[j].weight)))
  }

  /** Every adjacency list with its weights flipped by `f`. */
  function Reweighted(adj: seq<seq<UndirectedEdge>>, f: Int32 -> Int32): (r: seq<seq<UndirectedEdge>>)
    ensures |r| == |adj|
    ensures forall i :: 0 <= i < |adj| ==> r[i] == ReweightedList(adj[i], f)
  {
    seq(|adj|, i requires 0 <= i < |adj| => ReweightedList(adj[i], f))
  }

  /** Lookups go by endpoints only, so flipping weights moves no entry. */
  lemma {:induction false} IndexOfReweighted(list: seq<UndirectedEdge>, f: Int32 -> Int32, src: int, dest: int)
    ensures IndexOf(ReweightedList(list, f), src, dest) == IndexOf(list, src, dest)
  {
    if |list| > 0 {
      assert ReweightedList(list, f)[1..] == ReweightedList(list[1..], f);
      IndexOfReweighted(list[1..], f, src, dest);
    }
  }

  /** Flipping the weights keeps the graph well-formed, keeps every
      adjacency and flips every edge weight. */
  lemma ReweightedGraph(adj: seq<seq<UndirectedEdge>>, f: Int32 -> Int32)
    requires WellFormed(adj)
    ensures forall a, b :: Adjacent(Reweighted(adj, f), a, b) <==> Adjacent(adj, a, b)
    ensures forall a, b :: Adjacent(adj, a, b) ==> EdgeWeight(Reweighted(adj, f), a, b) == f(EdgeWeight(adj, a, b))
    ensures WellFormed(Reweighted(adj, f))
  {
    var adj' := Reweighted(adj, f);
    forall a, b | 0 <= a < |adj| ensures IndexOf(adj'[a], a, b) == IndexOf(adj[a], a, b) {
      IndexOfReweighted(adj[a], f, a, b);
    }
    forall a, b | Adjacent(adj, a, b) ensures EdgeWeight(adj', a, b) == f(EdgeWeight(adj, a, b)) {
      IndexOfReweighted(adj[a], f, a, b);
    }
    forall a, b | Adjacent(adj', a, b) ensures Adjacent(adj, a, b) {
      IndexOfReweighted(adj[a], f, a, b);
    }
    forall a, b | Adjacent(adj', a, b)
      ensures Adjacent(adj', b, a) && EdgeWeight(adj', a, b) == EdgeWeight(adj', b, a)
    {
      assert Adjacent(adj, b, a);
    }
  }

  /** Flipping twice by an involution, such as `Neg32`, gives back the graph. */
  lemma ReweightedTwice(adj: seq<seq<UndirectedEdge>>, f: Int32 -> Int32)
    requires forall w :: f(f(w)) == w
    ensures Reweighted(Reweighted(adj, f), f) == adj
  {
    forall i | 0 <= i < |adj| ensures Reweighted(Reweighted(adj, f), f)[i] == adj[i] {
      forall j | 0 <= j < |adj[i]| ensures Reweighted(Reweighted(adj, f), f)[i][j] == adj[i][j] {
      }
    }
  }

  /** Walks only see adjacency, which flipping keeps. */
  lemma ReweightedWalks(adj: seq<seq<UndirectedEdge>>, f: Int32 -> Int32, p: seq<int>)
    requires WellFormed(adj)
    ensures IsWalk(Reweighted(adj, f), p) <==> IsWalk(adj, p)
  {
    ReweightedGraph(adj, f);
  }

  /** The loop of `getWidestPath` that sets `e.weight` to the flip of
      `e.weight` (`0 - e.weight` in the source) on every entry of every
      adjacency list. */
  method Reweigh(g: Graph, f: Int32 -> Int32)
    requires g.Valid()
    modifies g
    ensures g.Valid() && g.numVert == old(g.numVert)
    ensures g.adjLists == Reweighted(old(g.adjLists), f)
  {
    ghost var adj0 := g.adjLists;
    var i := 0;
    while i < |g.adjLists|
      invariant 0 <= i <= |g.adjLists| == |adj0| == g.numVert
      invariant forall a :: 0 <= a < i ==> g.adjLists[a] == ReweightedList(adj0[a], f)
      invariant forall a :: i <= a < |adj0| ==> g.adjLists[a] == adj0[a]
    {
      var j := 0;
      while j < |g.adjLists[i]|
        invariant |g.adjLists| == |adj0| == g.numVert && |g.adjLists[i]| == |adj0[i]| && 0 <= j <= |adj0[i]|
        invariant forall a :: 0 <= a < |adj0| && a != i ==> g.adjLists[a] == if a < i then ReweightedList(adj0[a], f) else adj0[a]
        invariant forall m :: 0 <= m < j ==> g.adjLists[i][m] == ReweightedList(adj0[i], f)[m]
        invariant forall m :: j <= m < |adj0[i]| ==> g.adjLists[i][m] == adj0[i][m]
      {
        var e := g.adjLists[i][j];
        g.adjLists := g.adjLists[i := g.adjLists[i][j := e.(weight := f(e.weight))]];
        j := j + 1;
      }
      assert g.adjLists[i] == ReweightedList(adj0[i], f);
      i := i + 1;
    }
    assert g.adjLists == Reweighted(adj0, f);
    ReweightedGraph(adj0, f);
  }

  // ---------------------------------------------------------------------
  // Widths

  /** The width of a walk: the weight of its narrowest edge. */
  ghost function Width(adj: seq<seq<UndirectedEdge>>, p: seq<int>): (r: int)
    requires IsWalk(adj, p) && |p| >= 2
    ensures forall i :: 0 <= i < |p| - 1 ==> r <= EdgeWeight(adj, p[i], p[i + 1])
    ensures exists i :: 0 <= i < |p| - 1 && r == EdgeWeight(adj, p[i], p[i + 1])
    decreases |p|
  {
    var w := EdgeWeight(adj, p[0], p[1]);
    if |p| == 2 then w
    else
      assert IsWalk(adj, p[1..]);
      var rest := Width(adj, p[1..]);
      assert forall i :: 1 <= i < |p| - 1 ==> rest <= EdgeWeight(adj, p[1..][i - 1], p[1..][i]);
      if w <= rest then w else rest
  }

  /** The weights carried by the edges of the graph. */
  ghost function EdgeWeights(adj: seq<seq<UndirectedEdge>>): set<Int32>
  {
    set a, b | 0 <= a < |adj| && 0 <= b < |adj| && Adjacent(adj, a, b) :: EdgeWeight(adj, a, b)
  }

  /** `f` reverses the order of the weights in `W`. */
  ghost predicate Reverses(f: Int32 -> Int32, W: set<Int32>)
  {
    forall a: Int32, b: Int32 :: a in W && b in W && a < b ==> f(b) < f(a)
  }

  /** `0 - w` reverses the order of any weights but `Integer.MIN_VALUE`. */
  lemma Neg32Reverses(W: set<Int32>)
    requires -0x8000_0000 !in W
    ensures Reverses(Neg32, W)
  {
  }

  /** `-1 - w` reverses the order of all weights. */
  lemma Not32Reverses(W: set<Int32>)
    ensures Reverses(Not32, W)
  {
  }

  /** A fewest-edge walk from a vertex to itself is that vertex alone. */
  lemma ShortestToSelf(adj: seq<seq<UndirectedEdge>>, src: int, p: seq<int>)
    requires 0 <= src < |adj| && WalkFromTo(adj, p, src, src)
    requires forall q :: WalkFromTo(adj, q, src, src) ==> |p| <= |q|
    ensures p == [src]
  {
    assert WalkFromTo(adj, [src], src, src);
  }

  /** Cutting the loop between two visits of a vertex out of a walk leaves
      a shorter walk between the same ends. */
  lemma CutLoop(adj: seq<seq<UndirectedEdge>>, p: seq<int>, i: int, j: int)
    requires IsWalk(adj, p) && 0 <= i < j < |p| && p[i] == p[j]
    ensures WalkFromTo(adj, p[..i] + p[j..], p[0], p[|p| - 1]) && |p[..i] + p[j..]| < |p|
  {
    var q := p[..i] + p[j..];
    assert forall k :: 0 <= k < i ==> q[k] == p[k];
    assert forall k :: i <= k < |q| ==> q[k] == p[k + j - i];
    forall k | 0 <= k < |q| - 1 ensures Adjacent(adj, q[k], q[k + 1]) {
      if k < i - 1 {
        assert Adjacent(adj, p[k], p[k + 1]);
      } else if k == i - 1 {
        assert Adjacent(adj, p[i - 1], p[i]);
      } else {
        assert Adjacent(adj, p[k + j - i], p[k + j - i + 1]);
      }
    }
  }

  /** A fewest-edge walk visits no vertex twice. */
  lemma ShortestIsPath(adj: seq<seq<UndirectedEdge>>, p: seq<int>, a: int, b: int)
    requires WalkFromTo(adj, p, a, b)
    requires forall q :: WalkFromTo(adj, q, a, b) ==> |p| <= |q|
    ensures VertexSets.Distinct(p)
  {
    forall i, j | 0 <= i < j < |p| ensures p[i] != p[j] {
      if p[i] == p[j] {
        CutLoop(adj, p, i, j);
      }
    }
  }

  // ---------------------------------------------------------------------
  // getWidestPath

  /** What `getWidestPath(g, src, tgt)` leaves, for vertices in range, when
      the weights are flipped by `f`: the answer is a path from `src` to
      `tgt` in `g` exactly when one exists (`[src]` when they are equal) and
      NullPointer otherwise; the path is a fewest-edge walk of `forest`;
      `forest` is a forest with one edge fewer than vertices per component,
      built from edges of `g` with their flipped weights, that connects what
      `g` connects, and in which every edge of the flipped graph is joined by
      a walk of edges no heavier than it. */
  ghost predicate WidestOutcome(adj0: seq<seq<UndirectedEdge>>, f: Int32 -> Int32, src: int, tgt: int,
                                r: Result<seq<int>>, forest: seq<seq<UndirectedEdge>>)
  {
    && (r.Success? <==> Reachable(adj0, src, tgt))
    && (r.Failure? ==> r.error == NullPointer)
    && (r.Success? ==> WalkFromTo(adj0, r.value, src, tgt) && WalkFromTo(forest, r.value, src, tgt))
    && (r.Success? ==> forall p :: WalkFromTo(forest, p, src, tgt) ==> |r.value| <= |p|)
    && (src == tgt ==> r == Success([src]))
    && |forest| == |adj0| && WellFormed(forest) && Kruskal.Forest(forest)
    && (forall a, b :: Adjacent(forest, a, b) ==>
          Adjacent(adj0, a, b) && EdgeWeight(forest, a, b) == f(EdgeWeight(adj0, a, b)))
    && (forall x, y :: Reachable(forest, x, y) <==> Reachable(adj0, x, y))
    && |Kruskal.EdgePairs(forest)| == |adj0| - |Kruskal.Components(Reweighted(adj0, f))|
    && (forall e :: Kruskal.EdgeOf(Reweighted(adj0, f), e) ==> Kruskal.Light(forest, e))
  }

  /** A walk of `g` whose edges weigh at least `b`, a weight of `g`, is a
      walk of the flipped graph whose edges weigh at most the flip of `b`. */
  lemma FlippedLight(adj0: seq<seq<UndirectedEdge>>, f: Int32 -> Int32, q: seq<int>, b: Int32)
    requires WellFormed(adj0) && Reverses(f, EdgeWeights(adj0)) && b in EdgeWeights(adj0)
    requires IsWalk(adj0, q) && forall i :: 0 <= i < |q| - 1 ==> b <= EdgeWeight(adj0, q[i], q[i + 1])
    ensures IsWalk(Reweighted(adj0, f), q) && Kruskal.LightWalk(Reweighted(adj0, f), q, f(b))
  {
    ReweightedGraph(adj0, f);
    forall i | 0 <= i < |q| - 1 ensures EdgeWeight(Reweighted(adj0, f), q[i], q[i + 1]) <= f(b) {
      assert EdgeWeight(adj0, q[i], q[i + 1]) in EdgeWeights(adj0);
    }
  }

  /** A walk of the forest whose flipped weights are at most the flip of
      `b` has edges of `g` weighing at least `b`. */
  lemma UnflippedWide(adj0: seq<seq<UndirectedEdge>>, f: Int32 -> Int32, forest: seq<seq<UndirectedEdge>>,
                      p: seq<int>, b: Int32)
    requires Reverses(f, EdgeWeights(adj0)) && b in EdgeWeights(adj0) && |forest| == |adj0|
    requires forall a, c :: Adjacent(forest, a, c) ==>
               Adjacent(adj0, a, c) && EdgeWeight(forest, a, c) == f(EdgeWeight(adj0, a, c))
    requires IsWalk(forest, p) && Kruskal.LightWalk(forest, p, f(b))
    ensures IsWalk(adj0, p) && forall i :: 0 <= i < |p| - 1 ==> b <= EdgeWeight(adj0, p[i], p[i + 1])
  {
    forall i | 0 <= i < |p| - 1 ensures Adjacent(adj0, p[i], p[i + 1]) && b <= EdgeWeight(adj0, p[i], p[i + 1]) {
      assert EdgeWeight(adj0, p[i], p[i + 1]) in EdgeWeights(adj0);
    }
  }

  /** The minimax property read back through the flip: when `f` reverses
      the order of `g`'s weights and every edge of the flipped graph is
      `Light` in the forest, the forest path between the ends of a walk of
      `g` is a walk of `g` at least as wide. */
  lemma WiderThan(adj0: seq<seq<UndirectedEdge>>, f: Int32 -> Int32, forest: seq<seq<UndirectedEdge>>,
                  p: seq<int>, q: seq<int>)
    requires WellFormed(adj0) && Reverses(f, EdgeWeights(adj0))
    requires WellFormed(forest) && Kruskal.Forest(forest) && |forest| == |adj0|
    requires forall a, c :: Adjacent(forest, a, c) ==>
               Adjacent(adj0, a, c) && EdgeWeight(forest, a, c) == f(EdgeWeight(adj0, a, c))
    requires forall e :: Kruskal.EdgeOf(Reweighted(adj0, f), e) ==> Kruskal.Light(forest, e)
    requires IsWalk(adj0, q) && |q| >= 2 && |p| >= 2
    requires WalkFromTo(forest, p, q[0], q[|q| - 1]) && VertexSets.Distinct(p)
    ensures IsWalk(adj0, p) && Width(adj0, q) <= Width(adj0, p)
  {
    var b := Width(adj0, q);
    NarrowestFlipped(adj0, f, q);
    Kruskal.MinimaxPath(Reweighted(adj0, f), forest, q, f(b), p);
    UnflippedWide(adj0, f, forest, p, b);
  }

  /** The narrowest edge of a walk becomes, once flipped, a bound on every
      reweighted edge of the walk. */
  lemma NarrowestFlipped(adj0: seq<seq<UndirectedEdge>>, f: Int32 -> Int32, q: seq<int>)
    requires WellFormed(adj0) && Reverses(f, EdgeWeights(adj0))
    requires IsWalk(adj0, q) && |q| >= 2
    ensures Width(adj0, q) in EdgeWeights(adj0) && WellFormed(Reweighted(adj0, f))
    ensures IsWalk(Reweighted(adj0, f), q) && Kruskal.LightWalk(Reweighted(adj0, f), q, f(Width(adj0, q)))
  {
    var b := Width(adj0, q);
    var ib :| 0 <= ib < |q| - 1 && b == EdgeWeight(adj0, q[ib], q[ib + 1]);
    assert b in EdgeWeights(adj0);
    FlippedLight(adj0, f, q, b);
    ReweightedGraph(adj0, f);
  }

  /** A fewest-edge path of the forest is at least as wide as every walk
      of `g` between its ends. */
  lemma WidestInForest(adj0: seq<seq<UndirectedEdge>>, f: Int32 -> Int32, forest: seq<seq<UndirectedEdge>>,
                       p: seq<int>, src: int, tgt: int)
    requires WellFormed(adj0) && Reverses(f, EdgeWeights(adj0)) && src != tgt
    requires WellFormed(forest) && Kruskal.Forest(forest) && |forest| == |adj0|
    requires forall a, c :: Adjacent(forest, a, c) ==>
               Adjacent(adj0, a, c) && EdgeWeight(forest, a, c) == f(EdgeWeight(adj0, a, c))
    requires forall e :: Kruskal.EdgeOf(Reweighted(adj0, f), e) ==> Kruskal.Light(forest, e)
    requires WalkFromTo(forest, p, src, tgt) && forall p' :: WalkFromTo(forest, p', src, tgt) ==> |p| <= |p'|
    ensures IsWalk(adj0, p) && |p| >= 2
    ensures forall q :: WalkFromTo(adj0, q, src, tgt) ==> Width(adj0, q) <= Width(adj0, p)
  {
    ShortestIsPath(forest, p, src, tgt);
    assert |p| >= 2;
    forall a | 0 <= a < |p| - 1 ensures Adjacent(adj0, p[a], p[a + 1]) {
    }
    forall q | WalkFromTo(adj0, q, src, tgt) ensures Width(adj0, q) <= Width(adj0, p) {
      WiderThan(adj0, f, forest, p, q);
    }
  }

  /** The widest-path promise: when `f` reverses the order of `g`'s weights,
      the path `getWidestPath` returns is at least as wide as every walk of
      `g` between the same vertices. */
  lemma OutcomeIsWidest(adj0: seq<seq<UndirectedEdge>>, f: Int32 -> Int32, src: int, tgt: int,
                        r: Result<seq<int>>, forest: seq<seq<UndirectedEdge>>)
    requires WellFormed(adj0) && Reverses(f, EdgeWeights(adj0))
    requires WidestOutcome(adj0, f, src, tgt, r, forest) && r.Success? && src != tgt
    ensures forall q :: WalkFromTo(adj0, q, src, tgt) ==> Width(adj0, q) <= Width(adj0, r.value)
  {
    WidestInForest(adj0, f, forest, r.value, src, tgt);
  }

  /** The steps of `getWidestPath`, with the weights flipped by `f`. The
      weights of `g` stay flipped afterwards; `forest` is the spanning forest
      the path runs in. */
  method WidestPathBy(g: Graph?, src: int, tgt: int, f: Int32 -> Int32)
    returns (r: Result<seq<int>>, ghost forest: seq<seq<UndirectedEdge>>)
    requires g != null ==> g.Valid()
    modifies g
    ensures g == null ==> r == Failure(IllegalArgument)
    ensures g != null ==> g.Valid() && g.numVert == old(g.numVert)
    ensures g != null && !(0 <= src < old(|g.adjLists|) && 0 <= tgt < old(|g.adjLists|)) ==>
              r == Failure(IllegalArgument) && g.adjLists == old(g.adjLists)
    ensures g != null && 0 <= src < old(|g.adjLists|) && 0 <= tgt < old(|g.adjLists|) ==>
              g.adjLists == Reweighted(old(g.adjLists), f) && WidestOutcome(old(g.adjLists), f, src, tgt, r, forest)
  {
    forest := [];
    if g == null {
      return Failure(IllegalArgument), forest;
    }
    if src < 0 || src >= g.GetSize() || tgt < 0 || tgt >= g.GetSize() {
      return Failure(IllegalArgument), forest;
    }
    ghost var adj0 := g.adjLists;
    Reweigh(g, f);
    var mr := Kruskal.GetMST(g);
    var maxSpanning := mr.value;
    forest := maxSpanning.adjLists;
    r := GetShortestPath(maxSpanning, src, tgt);
    if src == tgt {
      assert WalkFromTo(forest, [src], src, src);
    }
    ReweightedGraph(adj0, f);
    forall x, y ensures Reachable(g.adjLists, x, y) <==> Reachable(adj0, x, y) {
      if Reachable(adj0, x, y) {
        var p :| WalkFromTo(adj0, p, x, y);
        ReweightedWalks(adj0, f, p);
        assert WalkFromTo(g.adjLists, p, x, y);
      }
      if Reachable(g.adjLists, x, y) {
        var p :| WalkFromTo(g.adjLists, p, x, y);
        ReweightedWalks(adj0, f, p);
        assert WalkFromTo(adj0, p, x, y);
      }
    }
    if r.Success? {
      assert WalkFromTo(g.adjLists, r.value, src, tgt);
      ReweightedWalks(adj0, f, r.value);
      if src == tgt {
        ShortestToSelf(forest, src, r.value);
      }
    }
  }

  /** `getWidestPath(g, src, tgt)` as written, flipping weights by `0 - w`:
      the path is widest when no weight is `Integer.MIN_VALUE`. */
  method GetWidestPath(g: Graph?, src: int, tgt: int) returns (r: Result<seq<int>>, ghost forest: seq<seq<UndirectedEdge>>)
    requires g != null ==> g.Valid()
    modifies g
    ensures g == null ==> r == Failure(IllegalArgument)
    ensures g != null ==> g.Valid() && g.numVert == old(g.numVert)
    ensures g != null && !(0 <= src < old(|g.adjLists|) && 0 <= tgt < old(|g.adjLists|)) ==>
              r == Failure(IllegalArgument) && g.adjLists == old(g.adjLists)
    ensures g != null && 0 <= src < old(|g.adjLists|) && 0 <= tgt < old(|g.adjLists|) ==>
              g.adjLists == Reweighted(old(g.adjLists), Neg32) && WidestOutcome(old(g.adjLists), Neg32, src, tgt, r, forest)
    ensures g != null && 0 <= src < old(|g.adjLists|) && 0 <= tgt < old(|g.adjLists|) &&
            -0x8000_0000 !in EdgeWeights(old(g.adjLists)) && r.Success? && src != tgt ==>
              forall q :: WalkFromTo(old(g.adjLists), q, src, tgt) ==> Width(old(g.adjLists), q) <= Width(old(g.adjLists), r.value)
  {
    ghost var adj0 := if g == null then [] else g.adjLists;
    r, forest := WidestPathBy(g, src, tgt, Neg32);
    if g != null && 0 <= src < |adj0| && 0 <= tgt < |adj0| && -0x8000_0000 !in EdgeWeights(adj0) && r.Success? && src != tgt {
      Neg32Reverses(EdgeWeights(adj0));
      OutcomeIsWidest(adj0, Neg32, src, tgt, r, forest);
    }
  }

  /** `getWidestPath` with the weights flipped by `-1 - w`, which reverses
      the order of every pair of `int` weights: the path is always widest. */
  method GetWidestPathComplement(g: Graph?, src: int, tgt: int) returns (r: Result<seq<int>>, ghost forest: seq<seq<UndirectedEdge>>)
    requires g != null ==> g.Valid()
    modifies g
    ensures g == null ==> r == Failure(IllegalArgument)
    ensures g != null ==> g.Valid() && g.numVert == old(g.numVert)
    ensures g != null && !(0 <= src < old(|g.adjLists|) && 0 <= tgt < old(|g.adjLists|)) ==>
              r == Failure(IllegalArgument) && g.adjLists == old(g.adjLists)
    ensures g != null && 0 <= src < old(|g.adjLists|) && 0 <= tgt < old(|g.adjLists|) ==>
              g.adjLists == Reweighted(old(g.adjLists), Not32) && WidestOutcome(old(g.adjLists), Not32, src, tgt, r, forest)
    ensures g != null && 0 <= src < old(|g.adjLists|) && 0 <= tgt < old(|g.adjLists|) && r.Success? && src != tgt ==>
              forall q :: WalkFromTo(old(g.adjLists), q, src, tgt) ==> Width(old(g.adjLists), q) <= Width(old(g.adjLists), r.value)
  {
    ghost var adj0 := if g == null then [] else g.adjLists;
    r, forest := WidestPathBy(g, src, tgt, Not32);
    if g != null && 0 <= src < |adj0| && 0 <= tgt < |adj0| && r.Success? && src != tgt {
      Not32Reverses(EdgeWeights(adj0));
      OutcomeIsWidest(adj0, Not32, src, tgt, r, forest);
    }
  }

  // ---------------------------------------------------------------------
  // Integer.MIN_VALUE

  /** A triangle: 0-1 of weight `Integer.MIN_VALUE`, 0-2 and 2-1 of weight 5. */
  function MinTriangle(): (adj: seq<seq<UndirectedEdge>>)
    ensures WellFormed(adj)
  {
    [ [UndirectedEdge(0, 1, -0x8000_0000), UndirectedEdge(0, 2, 5)],
      [UndirectedEdge(1, 0, -0x8000_0000), UndirectedEdge(1, 2, 5)],
      [UndirectedEdge(2, 0, 5), UndirectedEdge(2, 1, 5)] ]
  }

  /** The edges of the triangle, and their weights once flipped by `0 - w`. */
  lemma MinTriangleEdges()
    ensures forall v :: Adjacent(MinTriangle(), 0, v) <==> v == 1 || v == 2
    ensures Adjacent(MinTriangle(), 2, 1)
    ensures EdgeWeight(MinTriangle(), 0, 1) == -0x8000_0000
    ensures EdgeWeight(MinTriangle(), 0, 2) == 5 && EdgeWeight(MinTriangle(), 2, 1) == 5
    ensures EdgeWeight(Reweighted(MinTriangle(), Neg32), 0, 1) == -0x8000_0000
    ensures EdgeWeight(Reweighted(MinTriangle(), Neg32), 0, 2) == -5
  {
    var adj := MinTriangle();
    assert IndexOf(adj[0], 0, 1) == 0 && IndexOf(adj[0], 0, 2) == 1 && IndexOf(adj[2], 2, 1) == 1;
    forall v ensures Adjacent(adj, 0, v) <==> v == 1 || v == 2 {
      assert adj[0][1..][1..] == [];
    }
    ReweightedGraph(adj, Neg32);
  }

  /** The direct 0-1 edge is the narrowest path of the triangle; the
      detour through 2 is wider. */
  lemma TriangleWidths()
    ensures WalkFromTo(MinTriangle(), [0, 1], 0, 1) && WalkFromTo(MinTriangle(), [0, 2, 1], 0, 1)
    ensures Width(MinTriangle(), [0, 1]) == -0x8000_0000 && Width(MinTriangle(), [0, 2, 1]) == 5
  {
    MinTriangleEdges();
    assert WalkFromTo(MinTriangle(), [0, 1], 0, 1);
    assert WalkFromTo(MinTriangle(), [0, 2, 1], 0, 1);
  }

  /** A forest of the triangle's edges with their weights flipped by `0 - w`
      in which the flipped 0-1 edge is `Light` holds that edge: the flipped
      weight of the 0-2 edge is -5, heavier than `MIN_VALUE`. */
  lemma MinEdgeKept(forest: seq<seq<UndirectedEdge>>)
    requires |forest| == 3
    requires forall a, c :: Adjacent(forest, a, c) ==>
               Adjacent(MinTriangle(), a, c) && EdgeWeight(forest, a, c) == Neg32(EdgeWeight(MinTriangle(), a, c))
    requires Kruskal.Light(forest, Kruskal.Edge(0, 1, -0x8000_0000))
    ensures Adjacent(forest, 0, 1)
  {
    MinTriangleEdges();
    var pw :| WalkFromTo(forest, pw, 0, 1) && Kruskal.LightWalk(forest, pw, -0x8000_0000);
    assert Adjacent(forest, 0, pw[1]) && EdgeWeight(forest, 0, pw[1]) <= -0x8000_0000;
  }

  /** The fewest-edge walk from 0 to 1 in such a forest is that edge. */
  lemma TrianglePath(r: Result<seq<int>>, forest: seq<seq<UndirectedEdge>>)
    requires |forest| == 3
    requires forall a, c :: Adjacent(forest, a, c) ==>
               Adjacent(MinTriangle(), a, c) && EdgeWeight(forest, a, c) == Neg32(EdgeWeight(MinTriangle(), a, c))
    requires Kruskal.Light(forest, Kruskal.Edge(0, 1, -0x8000_0000))
    requires r.Success? && WalkFromTo(forest, r.value, 0, 1)
    requires forall p :: WalkFromTo(forest, p, 0, 1) ==> |r.value| <= |p|
    ensures r == Success([0, 1])
  {
    MinEdgeKept(forest);
    assert WalkFromTo(forest, [0, 1], 0, 1);
    assert |r.value| == 2 && r.value == [r.value[0], r.value[1]];
  }

  /** `0 - w` leaves `Integer.MIN_VALUE` the lightest weight, so Kruskal
      keeps the 0-1 edge and `getWidestPath(g, 0, 1)` returns `[0, 1]`, of
      width `MIN_VALUE`, although `[0, 2, 1]` has width 5. */
  lemma MinValueStaysNarrowest(r: Result<seq<int>>, forest: seq<seq<UndirectedEdge>>)
    requires WidestOutcome(MinTriangle(), Neg32, 0, 1, r, forest)
    ensures r == Success([0, 1])
    ensures WalkFromTo(MinTriangle(), [0, 2, 1], 0, 1)
    ensures Width(MinTriangle(), [0, 1]) == -0x8000_0000 && Width(MinTriangle(), [0, 2, 1]) == 5
  {
    TriangleWidths();
    MinTriangleEdges();
    ReweightedGraph(MinTriangle(), Neg32);
    assert Kruskal.EdgeOf(Reweighted(MinTriangle(), Neg32), Kruskal.Edge(0, 1, -0x8000_0000));
    TrianglePath(r, forest);
  }
}
