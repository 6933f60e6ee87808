/** BFS.java: the breadth-first shortest path in an undirected graph, over
    the deque of `CircularDeques` as the queue. */
module BreadthFirst {
  import opened Wrappers
  import opened Graphs
  import CircularDeques
  import opened VertexSets

  /** `p` is a walk: a non-empty vertex sequence whose consecutive vertices
      are adjacent. Its length in edges is `|p| - 1`. */
  ghost predicate IsWalk(adj: seq<seq<UndirectedEdge>>, p: seq<int>)
  {
    && |p| >= 1
    && (forall k :: 0 <= k < |p| ==> 0 <= p[k] < |adj|)
    && (forall k :: 0 <= k < |p| - 1 ==> Adjacent(adj, p[k], p[k + 1]))
  }

  ghost predicate WalkFromTo(adj: seq<seq<UndirectedEdge>>, p: seq<int>, a: int, b: int)
  {
    IsWalk(adj, p) && p[0] == a && p[|p| - 1] == b
  }

  ghost predicate Reachable(adj: seq<seq<UndirectedEdge>>, a: int, b: int)
  {
    exists p :: WalkFromTo(adj, p, a, b)
  }

  /** Every walk from `src` to a vertex of `D` has at least `d[v]` edges. */
  ghost predicate LowerBounds(adj: seq<seq<UndirectedEdge>>, src: int, D: set<int>, d: seq<int>)
  {
    forall p :: IsWalk(adj, p) && p[0] == src && p[|p| - 1] in D ==>
      0 <= p[|p| - 1] < |d| && |p| - 1 >= d[p[|p| - 1]]
  }

  /** Every neighbour of a vertex of `F` is in `D`. */
  ghost predicate Closed(adj: seq<seq<UndirectedEdge>>, F: set<int>, D: set<int>)
  {
    forall x, y :: x in F && Adjacent(adj, x, y) ==> y in D
  }

  /** A walk that leaves `D` has a first step out of it. */
  lemma FirstExit(p: seq<int>, D: set<int>) returns (k: int)
    requires |p| >= 1 && p[0] in D && p[|p| - 1] !in D
    ensures 1 <= k < |p| && p[k - 1] in D && p[k] !in D
  {
    k := 1;
    while p[k] in D
      invariant 1 <= k < |p| && p[k - 1] in D
      decreases |p| - k
    {
      k := k + 1;
    }
  }

  lemma PrefixIsWalk(adj: seq<seq<UndirectedEdge>>, p: seq<int>, k: int)
    requires IsWalk(adj, p) && 1 <= k <= |p|
    ensures IsWalk(adj, p[..k])
  {
  }

  /** A vertex found undiscovered while scanning the neighbours of `v` is at
      least one edge further than `d[v]`: a walk to it leaves the discovered
      set from a vertex that is queued or is `v`, never from a finished one. */
  lemma NewVertexBound(adj: seq<seq<UndirectedEdge>>, src: int, D: set<int>, F: set<int>,
                       open: set<int>, d: seq<int>, level: int, p: seq<int>)
    requires LowerBounds(adj, src, D, d) && Closed(adj, F, D)
    requires src in D && D == F + open
    requires forall y :: y in open ==> 0 <= y < |d| && level <= d[y]
    requires IsWalk(adj, p) && p[0] == src && p[|p| - 1] !in D
    ensures |p| - 1 >= level + 1
  {
    var k := FirstExit(p, D);
    PrefixIsWalk(adj, p, k);
    assert p[..k][k - 1] == p[k - 1];
    assert Adjacent(adj, p[k - 1], p[k]);
    assert p[k - 1] !in F;
  }

  /** A walk from `src` never leaves a set closed under adjacency. */
  lemma {:induction false} ClosedWalk(adj: seq<seq<UndirectedEdge>>, F: set<int>, p: seq<int>)
    requires Closed(adj, F, F) && IsWalk(adj, p) && p[0] in F
    ensures p[|p| - 1] in F
    decreases |p|
  {
    if |p| > 1 {
      PrefixIsWalk(adj, p, |p| - 1);
      ClosedWalk(adj, F, p[..|p| - 1]);
      assert Adjacent(adj, p[|p| - 2], p[|p| - 1]);
    }
  }

  /** The arrays of the search agree with the discovered set `D` and the
      hop distances `d`: exactly the vertices of `D` are marked, and only
      they can have a parent. */
  ghost predicate Marks(adj: seq<seq<UndirectedEdge>>, src: int, discovered: seq<bool>,
                        parents: seq<Option<int>>, D: set<int>, d: seq<int>)
  {
    && |discovered| == |adj| && |parents| == |adj| && |d| == |adj|
    && 0 <= src < |adj| && src in D && d[src] == 0 && parents[src] == None
    && (forall v :: 0 <= v < |adj| ==> (discovered[v] <==> v in D))
    && (forall v :: v in D ==> 0 <= v < |adj| && d[v] >= 0)
    && (forall v :: 0 <= v < |adj| && v !in D ==> parents[v] == None)
  }

  /** Each discovered vertex other than `src` has a discovered, adjacent
      parent one hop closer to `src`. */
  ghost predicate Tree(adj: seq<seq<UndirectedEdge>>, src: int, parents: seq<Option<int>>, D: set<int>, d: seq<int>)
  {
    forall v :: v in D && v != src ==>
      && 0 <= v < |parents| && 0 <= v < |d| && parents[v].Some?
      && parents[v].value in D && 0 <= parents[v].value < |d|
      && Adjacent(adj, parents[v].value, v) && d[v] == d[parents[v].value] + 1
  }

  /** The BFS state shared by both loops: `D` is the discovered set and `d`
      the hop distances, which no walk from `src` beats. */
  ghost predicate Search(adj: seq<seq<UndirectedEdge>>, src: int, discovered: seq<bool>,
                         parents: seq<Option<int>>, D: set<int>, d: seq<int>)
  {
    Marks(adj, src, discovered, parents, D, d) && Tree(adj, src, parents, D, d) && LowerBounds(adj, src, D, d)
  }

  /** The queue holds distinct vertices in non-decreasing distance order. */
  ghost predicate Ordered(q: seq<int>, d: seq<int>)
  {
    forall i, j :: 0 <= i < j < |q| ==> 0 <= q[i] < |d| && 0 <= q[j] < |d| && q[i] != q[j] && d[q[i]] <= d[q[j]]
  }

  /** Every queued vertex is `level` or `level + 1` hops from `src`. */
  ghost predicate Levels(q: seq<int>, d: seq<int>, level: int)
  {
    forall i :: 0 <= i < |q| ==> 0 <= q[i] < |d| && level <= d[q[i]] <= level + 1
  }

  /** The state at the head of the queue loop: the discovered vertices are
      the finished ones and the queued ones. */
  ghost predicate Frontier(adj: seq<seq<UndirectedEdge>>, src: int, discovered: seq<bool>, parents: seq<Option<int>>,
                           D: set<int>, F: set<int>, q: seq<int>, d: seq<int>)
  {
    && Search(adj, src, discovered, parents, D, d)
    && Closed(adj, F, D)
    && F !! Members(q) && D == F + Members(q)
    && Ordered(q, d) && (|q| > 0 ==> 0 <= q[0] < |d| && Levels(q, d, d[q[0]]))
  }

  /** The state inside the scan of `v`'s neighbours: `v` has left the queue
      but is not finished yet, and the queue spans levels `level` and
      `level + 1`. */
  ghost predicate Scanning(adj: seq<seq<UndirectedEdge>>, src: int, discovered: seq<bool>, parents: seq<Option<int>>,
                           D: set<int>, F: set<int>, q: seq<int>, d: seq<int>, v: int, level: int)
  {
    && Search(adj, src, discovered, parents, D, d)
    && Closed(adj, F, D)
    && v in D && d[v] == level && v !in F && v !in Members(q)
    && F !! Members(q) && D == F + Members(q) + {v}
    && Ordered(q, d) && Levels(q, d, level)
  }

  /** Polling the front `v` of the queue starts the scan of `v`. */
  lemma StartScan(adj: seq<seq<UndirectedEdge>>, src: int, discovered: seq<bool>, parents: seq<Option<int>>,
                  D: set<int>, F: set<int>, q: seq<int>, d: seq<int>)
    requires Frontier(adj, src, discovered, parents, D, F, q, d) && |q| > 0
    ensures Scanning(adj, src, discovered, parents, D, F, q[1..], d, q[0], d[q[0]])
    ensures q[0] !in F && 0 <= q[0] < |adj|
  {
    PopFront(q);
  }

  lemma DiscoverMarks(adj: seq<seq<UndirectedEdge>>, src: int, discovered: seq<bool>, parents: seq<Option<int>>,
                      D: set<int>, d: seq<int>, v: int, u: int)
    requires Marks(adj, src, discovered, parents, D, d)
    requires v in D && 0 <= u < |adj| && u !in D
    ensures Marks(adj, src, discovered[u := true], parents[u := Some(v)], D + {u}, d[u := d[v] + 1])
  {
  }

  lemma DiscoverTree(adj: seq<seq<UndirectedEdge>>, src: int, parents: seq<Option<int>>,
                     D: set<int>, d: seq<int>, v: int, u: int)
    requires Tree(adj, src, parents, D, d)
    requires v in D && 0 <= v < |d| && u !in D && u != src && 0 <= u < |parents| && |d| == |parents|
    requires Adjacent(adj, v, u)
    ensures Tree(adj, src, parents[u := Some(v)], D + {u}, d[u := d[v] + 1])
  {
  }

  lemma DiscoverBounds(adj: seq<seq<UndirectedEdge>>, src: int, D: set<int>, d: seq<int>, v: int, u: int)
    requires LowerBounds(adj, src, D, d) && 0 <= v < |d| && 0 <= u < |d|
    requires forall p :: IsWalk(adj, p) && p[0] == src && p[|p| - 1] == u ==> |p| - 1 >= d[v] + 1
    ensures LowerBounds(adj, src, D + {u}, d[u := d[v] + 1])
  {
    var d' := d[u := d[v] + 1];
    forall p | IsWalk(adj, p) && p[0] == src && p[|p| - 1] in D + {u}
      ensures 0 <= p[|p| - 1] < |d'| && |p| - 1 >= d'[p[|p| - 1]]
    {
      if p[|p| - 1] != u {
        assert p[|p| - 1] in D;
      }
    }
  }

  /** A walk from `src` to an undiscovered vertex has more than `level`
      edges. */
  lemma DiscoverDistance(adj: seq<seq<UndirectedEdge>>, src: int, discovered: seq<bool>, parents: seq<Option<int>>,
                         D: set<int>, F: set<int>, q: seq<int>, d: seq<int>, v: int, level: int, u: int)
    requires Scanning(adj, src, discovered, parents, D, F, q, d, v, level) && u !in D
    ensures forall p :: IsWalk(adj, p) && p[0] == src && p[|p| - 1] == u ==> |p| - 1 >= level + 1
  {
    forall p | IsWalk(adj, p) && p[0] == src && p[|p| - 1] == u
      ensures |p| - 1 >= level + 1
    {
      NewVertexBound(adj, src, D, F, Members(q) + {v}, d, level, p);
    }
  }

  /** Discovering `u` with parent `v` keeps the search state, provided no
      walk reaches `u` in fewer than `d[v] + 1` edges. */
  lemma DiscoverSearch(adj: seq<seq<UndirectedEdge>>, src: int, discovered: seq<bool>, parents: seq<Option<int>>,
                       D: set<int>, d: seq<int>, v: int, u: int)
    requires Search(adj, src, discovered, parents, D, d)
    requires v in D && 0 <= u < |adj| && u !in D && Adjacent(adj, v, u)
    requires forall p :: IsWalk(adj, p) && p[0] == src && p[|p| - 1] == u ==> |p| - 1 >= d[v] + 1
    ensures Search(adj, src, discovered[u := true], parents[u := Some(v)], D + {u}, d[u := d[v] + 1])
  {
    DiscoverMarks(adj, src, discovered, parents, D, d, v, u);
    DiscoverTree(adj, src, parents, D, d, v, u);
    DiscoverBounds(adj, src, D, d, v, u);
  }

  /** Discovering a neighbour `u` of `v`: it gets distance `level + 1`,
      parent `v`, and joins the back of the queue. */
  lemma Discover(adj: seq<seq<UndirectedEdge>>, src: int, discovered: seq<bool>, parents: seq<Option<int>>,
                 D: set<int>, F: set<int>, q: seq<int>, d: seq<int>, v: int, level: int, u: int)
    requires Scanning(adj, src, discovered, parents, D, F, q, d, v, level)
    requires 0 <= u < |adj| && u !in D && Adjacent(adj, v, u)
    ensures Scanning(adj, src, discovered[u := true], parents[u := Some(v)], D + {u}, F, q + [u],
                     d[u := level + 1], v, level)
  {
    DiscoverDistance(adj, src, discovered, parents, D, F, q, d, v, level, u);
    DiscoverSearch(adj, src, discovered, parents, D, d, v, u);
    PushBack(q, u);
    DiscoverQueue(q, d, level, u);
  }

  /** Queueing `u` at distance `level + 1` keeps the queue ordered and
      within two levels. */
  lemma DiscoverQueue(q: seq<int>, d: seq<int>, level: int, u: int)
    requires Ordered(q, d) && Levels(q, d, level) && u !in Members(q) && 0 <= u < |d|
    ensures Ordered(q + [u], d[u := level + 1]) && Levels(q + [u], d[u := level + 1], level)
  {
    var d' := d[u := level + 1];
    forall i | 0 <= i < |q| ensures q[i] != u && d'[q[i]] == d[q[i]] {
      assert q[i] in Members(q);
    }
    assert (q + [u])[|q|] == u;
  }

  /** Once every neighbour of `v` is discovered, `v` is finished. */
  lemma FinishScan(adj: seq<seq<UndirectedEdge>>, src: int, discovered: seq<bool>, parents: seq<Option<int>>,
                   D: set<int>, F: set<int>, q: seq<int>, d: seq<int>, v: int, level: int)
    requires Scanning(adj, src, discovered, parents, D, F, q, d, v, level)
    requires forall y :: Adjacent(adj, v, y) ==> y in D
    ensures Frontier(adj, src, discovered, parents, D, F + {v}, q, d)
  {
  }

  /** The three updates for a newly discovered `u`: marked, queued, and
      given the parent `v`. */
  method Mark(queue: CircularDeques.CircularDeque<int>, discovered: array<bool>, parents: array<Option<int>>,
              u: int, v: int)
    requires queue.Valid() && parents != queue.arr && 0 <= u < discovered.Length && 0 <= u < parents.Length
    modifies queue, queue.arr, discovered, parents
    ensures queue.Valid() && (queue.arr == old(queue.arr) || fresh(queue.arr))
    ensures queue.Contents == old(queue.Contents) + [u]
    ensures discovered[..] == old(discovered[..])[u := true]
    ensures parents[..] == old(parents[..])[u := Some(v)]
  {
    discovered[u] := true;
    queue.AddLast(u);
    parents[u] := Some(v);
  }

  /** The `for` loop over `g.getNeighbors(v)`: each undiscovered neighbour is
      marked, queued and given `v` as its parent. */
  method ScanNeighbors(g: Graph, v: int, queue: CircularDeques.CircularDeque<int>, discovered: array<bool>,
                       parents: array<Option<int>>, ghost src: int, ghost D0: set<int>, ghost F: set<int>,
                       ghost d0: seq<int>, ghost level: int)
      returns (ghost D: set<int>, ghost d: seq<int>)
    requires g.Valid() && queue.Valid() && parents != queue.arr
    requires Scanning(g.adjLists, src, discovered[..], parents[..], D0, F, queue.Contents, d0, v, level)
    modifies queue, queue.arr, discovered, parents
    ensures queue.Valid() && (queue.arr == old(queue.arr) || fresh(queue.arr))
    ensures Frontier(g.adjLists, src, discovered[..], parents[..], D, F + {v}, queue.Contents, d)
  {
    ghost var adj := g.adjLists;
    ghost var ds, ps, q := discovered[..], parents[..], queue.Contents;
    D, d := D0, d0;
    var nbrs := g.GetNeighbors(v);
    var rest := nbrs.value;
    while rest != {}
      invariant queue.Valid() && (queue.arr == old(queue.arr) || fresh(queue.arr))
      invariant ds == discovered[..] && ps == parents[..] && q == queue.Contents
      invariant rest <= nbrs.value
      invariant Scanning(adj, src, ds, ps, D, F, q, d, v, level)
      invariant forall y :: y in nbrs.value - rest ==> y in D
      decreases rest
    {
      assert exists y :: y in rest by {
        // a set with no member is empty
        assert (forall y :: y !in rest) ==> rest == {};
      }
      var u :| u in rest;
      rest := rest - {u};
      if !discovered[u] {
        Discover(adj, src, ds, ps, D, F, q, d, v, level, u);
        Mark(queue, discovered, parents, u, v);
        ds, ps, q := ds[u := true], ps[u := Some(v)], q + [u];
        D := D + {u};
        d := d[u := level + 1];
      }
    }
    FinishScan(adj, src, ds, ps, D, F, q, d, v, level);
  }

  /** `queue.pollFirst()` on a non-empty queue; the search arrays are not
      touched. */
  method Poll(queue: CircularDeques.CircularDeque<int>, discovered: array<bool>, parents: array<Option<int>>)
      returns (v: int)
    requires queue.Valid() && parents != queue.arr && |queue.Contents| > 0
    modifies queue, queue.arr
    ensures queue.Valid() && (queue.arr == old(queue.arr) || fresh(queue.arr))
    ensures [v] + queue.Contents == old(queue.Contents)
    ensures discovered[..] == old(discovered[..]) && parents[..] == old(parents[..])
  {
    var polled := queue.PollFirst();
    v := polled.value;
  }

  /** One round of the `while` loop over the queue: poll the front vertex
      `v` and scan its neighbours, after which `v` is finished. */
  method Visit(g: Graph, queue: CircularDeques.CircularDeque<int>, discovered: array<bool>,
               parents: array<Option<int>>, ghost src: int, ghost D0: set<int>, ghost F: set<int>,
               ghost d0: seq<int>)
      returns (ghost v: int, ghost D: set<int>, ghost d: seq<int>)
    requires g.Valid() && queue.Valid() && parents != queue.arr && |queue.Contents| > 0
    requires Frontier(g.adjLists, src, discovered[..], parents[..], D0, F, queue.Contents, d0)
    modifies queue, queue.arr, discovered, parents
    ensures queue.Valid() && (queue.arr == old(queue.arr) || fresh(queue.arr))
    ensures v !in F && |F + {v}| <= |g.adjLists|
    ensures Frontier(g.adjLists, src, discovered[..], parents[..], D, F + {v}, queue.Contents, d)
  {
    FinishedBound(g.adjLists, src, discovered[..], parents[..], D0, F, queue.Contents, d0);
    StartScan(g.adjLists, src, discovered[..], parents[..], D0, F, queue.Contents, d0);
    var u := Poll(queue, discovered, parents);
    v := u;
    D, d := ScanNeighbors(g, u, queue, discovered, parents, src, D0, F, d0, d0[u]);
    BoundedSetSize(F + {v}, |g.adjLists|);
  }

  /** The state once `src` is marked and queued: nothing is finished yet. */
  lemma StartFrontier(adj: seq<seq<UndirectedEdge>>, src: int, discovered: seq<bool>, parents: seq<Option<int>>,
                      d: seq<int>)
    requires 0 <= src < |adj| && |discovered| == |adj| && |parents| == |adj| && |d| == |adj|
    requires forall x :: 0 <= x < |adj| ==> discovered[x] == (x == src) && parents[x] == None && d[x] == 0
    ensures Frontier(adj, src, discovered, parents, {src}, {}, [src], d)
  {
    assert Members([src]) == {src} by {
      assert [src][0] == src;
    }
  }

  /** The finished set only holds vertices of the graph. */
  lemma FinishedBound(adj: seq<seq<UndirectedEdge>>, src: int, discovered: seq<bool>, parents: seq<Option<int>>,
                      D: set<int>, F: set<int>, q: seq<int>, d: seq<int>)
    requires Frontier(adj, src, discovered, parents, D, F, q, d)
    ensures forall x :: x in F ==> 0 <= x < |adj|
  {
  }

  /** The set-up before the queue loop: fresh `discovered` and `parents`
      arrays, and a queue holding `src`, which is marked. */
  method Start(g: Graph, src: int)
      returns (discovered: array<bool>, parents: array<Option<int>>, queue: CircularDeques.CircularDeque<int>,
               ghost d: seq<int>)
    requires g.Valid() && 0 <= src < |g.adjLists|
    ensures fresh(discovered) && fresh(parents) && fresh(queue) && fresh(queue.arr)
    ensures queue.Valid() && parents != queue.arr
    ensures Frontier(g.adjLists, src, discovered[..], parents[..], {src}, {}, queue.Contents, d)
  {
    var n := g.GetSize();
    discovered := new bool[n](_ => false);
    parents := new Option<int>[n](_ => None);
    queue := new CircularDeques.CircularDeque<int>();
    queue.AddLast(src);
    discovered[src] := true;
    d := seq(n, _ => 0);
    StartFrontier(g.adjLists, src, discovered[..], parents[..], d);
  }

  /** With the queue empty, every discovered vertex is finished, so the
      discovered set is closed under adjacency. */
  lemma EmptyFrontier(adj: seq<seq<UndirectedEdge>>, src: int, discovered: seq<bool>, parents: seq<Option<int>>,
                      D: set<int>, F: set<int>, q: seq<int>, d: seq<int>)
    requires Frontier(adj, src, discovered, parents, D, F, q, d) && |q| == 0
    ensures Search(adj, src, discovered, parents, D, d) && Closed(adj, D, D)
  {
    assert Members(q) == {};
  }

  /** The `while` loop over the queue: afterwards every vertex reachable from
      `src` is discovered, with its hop distance and a parent. */
  method Explore(g: Graph, src: int)
      returns (discovered: array<bool>, parents: array<Option<int>>, ghost D: set<int>, ghost d: seq<int>)
    requires g.Valid() && 0 <= src < |g.adjLists|
    ensures fresh(discovered) && fresh(parents)
    ensures Search(g.adjLists, src, discovered[..], parents[..], D, d) && Closed(g.adjLists, D, D)
  {
    ghost var adj := g.adjLists;
    var queue;
    discovered, parents, queue, d := Start(g, src);
    D := {src};
    ghost var F: set<int> := {};
    while queue.Size() != 0
      invariant fresh(queue) && fresh(queue.arr) && queue.Valid() && parents != queue.arr
      invariant Frontier(adj, src, discovered[..], parents[..], D, F, queue.Contents, d)
      decreases |adj| - |F|
    {
      ghost var v;
      v, D, d := Visit(g, queue, discovered, parents, src, D, F, d);
      F := F + {v};
    }
    EmptyFrontier(adj, src, discovered[..], parents[..], D, F, queue.Contents, d);
  }

  /** One step of the parent walk from a discovered vertex `x` other than
      `src`: its parent is discovered, adjacent, and one hop closer. */
  lemma ParentStep(adj: seq<seq<UndirectedEdge>>, src: int, discovered: seq<bool>, parents: seq<Option<int>>,
                   D: set<int>, d: seq<int>, tgt: int, ans: seq<int>, x: int)
    requires Search(adj, src, discovered, parents, D, d) && x in D && x != src && tgt in D
    requires |ans| + d[x] == d[tgt] && WalkFromTo(adj, [x] + ans, x, tgt)
    ensures parents[x].Some? && parents[x].value in D && 0 <= d[parents[x].value] < d[x]
    ensures |[x] + ans| + d[parents[x].value] == d[tgt]
    ensures WalkFromTo(adj, [parents[x].value] + ([x] + ans), parents[x].value, tgt)
  {
    var y := parents[x].value;
    var w := [y] + ([x] + ans);
    assert Adjacent(adj, y, x);
    forall k | 0 <= k < |w| - 1 ensures Adjacent(adj, w[k], w[k + 1]) {
      if k > 0 {
        assert w[k] == ([x] + ans)[k - 1] && w[k + 1] == ([x] + ans)[k];
      }
    }
  }

  /** An undiscovered vertex has no parent. */
  lemma NoParent(adj: seq<seq<UndirectedEdge>>, src: int, discovered: seq<bool>, parents: seq<Option<int>>,
                 D: set<int>, d: seq<int>, x: int)
    requires Search(adj, src, discovered, parents, D, d) && 0 <= x < |adj| && x !in D
    ensures parents[x] == None
  {
  }

  /** Outside a closed discovered set there is nothing reachable. */
  lemma Unreachable(adj: seq<seq<UndirectedEdge>>, src: int, D: set<int>, tgt: int)
    requires Closed(adj, D, D) && src in D && tgt !in D
    ensures !Reachable(adj, src, tgt)
  {
    if p :| WalkFromTo(adj, p, src, tgt) {
      ClosedWalk(adj, D, p);
    }
  }

  /** A walk from `src` with `d[tgt]` edges is a shortest one. */
  lemma Shortest(adj: seq<seq<UndirectedEdge>>, src: int, discovered: seq<bool>, parents: seq<Option<int>>,
                 D: set<int>, d: seq<int>, tgt: int, path: seq<int>)
    requires Search(adj, src, discovered, parents, D, d) && tgt in D && |path| == d[tgt] + 1
    ensures forall p :: WalkFromTo(adj, p, src, tgt) ==> |path| <= |p|
  {
  }

  /** The parent walk from `tgt` back to `src`. The loop condition unboxes
      the current vertex, so a null parent ends it in NullPointerException. */
  method WalkBack(parents: array<Option<int>>, src: int, tgt: int, ghost adj: seq<seq<UndirectedEdge>>,
                  ghost discovered: seq<bool>, ghost D: set<int>, ghost d: seq<int>)
      returns (r: Result<seq<int>>)
    requires Search(adj, src, discovered, parents[..], D, d) && Closed(adj, D, D) && 0 <= tgt < |adj|
    ensures r.Success? <==> Reachable(adj, src, tgt)
    ensures r.Failure? ==> r.error == NullPointer
    ensures r.Success? ==> WalkFromTo(adj, r.value, src, tgt)
    ensures r.Success? ==> forall p :: WalkFromTo(adj, p, src, tgt) ==> |r.value| <= |p|
  {
    ghost var ps := parents[..];
    ghost var reach := tgt in D;
    var ans: seq<int> := [];
    var i: Option<int> := Some(tgt);
    while i.None? || i.value != src
      invariant reach ==> i.Some? && i.value in D && 0 <= d[i.value] && |ans| + d[i.value] == d[tgt]
      invariant reach ==> WalkFromTo(adj, [i.value] + ans, i.value, tgt)
      invariant !reach ==> i == Some(tgt) || i.None?
      decreases if i.None? then 0 else if reach then d[i.value] + 2 else 1
    {
      if i.None? {
        Unreachable(adj, src, D, tgt);
        return Failure(NullPointer);
      }
      var x := i.value;
      if reach {
        ParentStep(adj, src, discovered, ps, D, d, tgt, ans, x);
      } else {
        NoParent(adj, src, discovered, ps, D, d, x);
      }
      ans := [x] + ans;
      i := parents[x];
    }
    ans := [src] + ans;
    if reach {
      Shortest(adj, src, discovered, ps, D, d, tgt, ans);
    } else {
      assert false;
    }
    return Success(ans);
  }

  /** `getShortestPath(g, src, tgt)`: a walk from `src` to `tgt` with the
      fewest edges, NullPointerException when there is none. */
  method GetShortestPath(g: Graph?, src: int, tgt: int) returns (r: Result<seq<int>>)
    requires g != null ==> g.Valid()
    ensures g == null ==> r == Failure(IllegalArgument)
    ensures g != null && !(0 <= src < |g.adjLists| && 0 <= tgt < |g.adjLists|) ==> r == Failure(IllegalArgument)
    ensures g != null && 0 <= src < |g.adjLists| && 0 <= tgt < |g.adjLists| ==>
              && (r.Success? <==> Reachable(g.adjLists, src, tgt))
              && (r.Failure? ==> r.error == NullPointer)
              && (r.Success? ==> WalkFromTo(g.adjLists, r.value, src, tgt))
              && (r.Success? ==> forall p :: WalkFromTo(g.adjLists, p, src, tgt) ==> |r.value| <= |p|)
  {
    if g == null {
      return Failure(IllegalArgument);
    }
    if src < 0 || src >= g.GetSize() || tgt < 0 || tgt >= g.GetSize() {
      return Failure(IllegalArgument);
    }
    var discovered, parents, D, d := Explore(g, src);
    r := WalkBack(parents, src, tgt, g.adjLists, discovered[..], D, d);
  }
}
