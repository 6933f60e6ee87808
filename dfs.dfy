/** Depth-first search over a `WDGraph` (DFS.java): the vertices in reverse
    order of finishing time, and the set of vertices reachable from one. */
module DepthFirst {
  import opened Wrappers
  import opened WDGraphs
  import opened VertexSets

  /** The vertices a `discovered` array has marked. */
  ghost function Marked(s: seq<bool>): set<int>
  {
    set i | 0 <= i < |s| && s[i]
  }

  lemma MarkOne(s: seq<bool>, x: int)
    requires 0 <= x < |s|
    ensures Marked(s[x := true]) == Marked(s) + {x}
  {
  }

  /** The number of marked vertices never exceeds the array length, and a
      larger marked set has more elements. */
  lemma MarkedGrows(s: seq<bool>, D: set<int>)
    requires D <= Marked(s)
    ensures |D| <= |Marked(s)| <= |s|
  {
    BoundedSetSize(Marked(s), |s|);
    SubsetSize(D, Marked(s));
  }

  /** Once `x` joins the vertices marked before, fewer are unmarked. */
  lemma Progress(s: seq<bool>, D0: set<int>, x: int)
    requires D0 + {x} <= Marked(s) && x !in D0
    ensures |D0| < |Marked(s)| <= |s|
  {
    MarkedGrows(s, D0 + {x});
  }

  lemma SubsetSize(A: set<int>, B: set<int>)
    requires A <= B
    ensures |A| <= |B|
  {
    var C := B - A;
    assert B == A + C;
    assert A * C == {};
  }

  /** Every list of the graph is a rearrangement of the one in `adj`. */
  ghost predicate Permuted(adj: seq<seq<Edge>>, lists: seq<seq<Edge>>)
  {
    |adj| == |lists| && forall u :: 0 <= u < |adj| ==> multiset(lists[u]) == multiset(adj[u])
  }

  /** Rearranging a list keeps its neighbours. */
  lemma PermutedNeighbors(a: seq<Edge>, b: seq<Edge>)
    requires multiset(a) == multiset(b)
    ensures NeighborSet(a) == NeighborSet(b)
  {
    forall e ensures e in a <==> e in b {
      assert e in a <==> e in multiset(a);
    }
  }

  /** The state the finishing-order search works on: a graph that is not a
      transposed view, whose lists are those of `adj` up to order, and a
      `discovered` array with one entry per vertex. */
  ghost predicate Walkable(g: WDGraph, discovered: array<bool>, adj: seq<seq<Edge>>)
    reads g, g.base
  {
    g.Valid() && g.base == null && |adj| == |g.outLists| == discovered.Length && Permuted(adj, g.outLists)
  }

  /** An arc from a vertex to one listed before it closes a cycle. */
  ghost predicate BackArcsClose(adj: seq<seq<Edge>>, ans: seq<int>)
  {
    forall i, j :: 0 <= i < j < |ans| && Arc(adj, ans[j], ans[i]) ==> Reaches(adj, ans[i], ans[j])
  }

  /** What holds of the list `ans` of finished vertices when `D` is the set
      of discovered ones: each is listed once and is discovered, every arc
      out of a finished vertex ends at a discovered one, and arcs to
      earlier vertices close cycles. */
  ghost predicate Finished(adj: seq<seq<Edge>>, D: set<int>, ans: seq<int>)
  {
    && Members(ans) <= D
    && Distinct(ans)
    && (forall k, z :: 0 <= k < |ans| && Arc(adj, ans[k], z) ==> z in D)
    && BackArcsClose(adj, ans)
  }

  /** `Collections.sort(g.adjOutListArr[x])`: the out-list of `x` is
      replaced by its rearrangement in increasing neighbour order. */
  method SortOutList(g: WDGraph, x: int)
    requires g.Valid() && g.base == null && 0 <= x < |g.outLists|
    modifies g
    ensures g.Valid() && g.inLists == old(g.inLists) && g.numVert == old(g.numVert)
    ensures g.outLists == old(g.outLists)[x := g.outLists[x]]
    ensures SortedByNeighbor(g.outLists[x]) && multiset(g.outLists[x]) == multiset(old(g.outLists[x]))
  {
    var sorted := SortByNeighbor(g.outLists[x]);
    PermuteOutList(g.outLists, g.inLists, x, sorted);
    g.outLists := g.outLists[x := sorted];
  }

  /** `a` and `b` lie in one strongly connected component. */
  ghost predicate Strong(adj: seq<seq<Edge>>, a: int, b: int)
  {
    Reaches(adj, a, b) && Reaches(adj, b, a)
  }

  /** `u` is among `B` and reaches `v`, which is not. */
  ghost predicate Exits(adj: seq<seq<Edge>>, B: set<int>, u: int, v: int)
  {
    u in B && v !in B && Reaches(adj, u, v)
  }

  /** `u` reaches `v` but not the other way round. */
  ghost predicate OneWay(adj: seq<seq<Edge>>, u: int, v: int)
  {
    Reaches(adj, u, v) && !Reaches(adj, v, u)
  }

  /** What the finished list `ans` promises about components while the
      search runs; `D - Members(ans)` are the vertices whose calls are still
      open. A finished vertex that reaches an unfinished one is strongly
      connected to an open one; and when `ans[a]` reaches `ans[b]` but not
      the other way round, a vertex strongly connected to `ans[a]` is listed
      before `ans[b]` or is still open (and will be listed in front). */
  ghost predicate Nested(adj: seq<seq<Edge>>, D: set<int>, ans: seq<int>)
  {
    && (forall u, v :: Exits(adj, Members(ans), u, v) ==> exists s :: s in D - Members(ans) && Strong(adj, u, s))
    && (forall a, b {:trigger OneWay(adj, ans[a], ans[b])} ::
          0 <= a < |ans| && 0 <= b < |ans| && OneWay(adj, ans[a], ans[b]) ==>
          || (exists i :: 0 <= i < b && Strong(adj, ans[i], ans[a]))
          || (exists s :: s in D - Members(ans) && Strong(adj, s, ans[a])))
  }

  /** Every vertex whose call is still open reaches `x`: they are the
      callers of the call on `x`. */
  ghost predicate StackReaches(adj: seq<seq<Edge>>, D: set<int>, ans: seq<int>, x: int)
  {
    forall s :: s in D && s !in Members(ans) ==> Reaches(adj, s, x)
  }

  /** Discovering more vertices keeps what `Nested` promises. */
  lemma NestedGrows(adj: seq<seq<Edge>>, D: set<int>, D': set<int>, ans: seq<int>)
    requires Nested(adj, D, ans) && D <= D'
    ensures Nested(adj, D', ans)
  {
    forall u, v | Exits(adj, Members(ans), u, v)
      ensures exists s :: s in D' - Members(ans) && Strong(adj, u, s)
    {
      var s :| s in D - Members(ans) && Strong(adj, u, s);
      assert s in D' - Members(ans);
    }
    forall a, b | 0 <= a < |ans| && 0 <= b < |ans| && OneWay(adj, ans[a], ans[b])
      ensures || (exists i :: 0 <= i < b && Strong(adj, ans[i], ans[a]))
              || (exists s :: s in D' - Members(ans) && Strong(adj, s, ans[a]))
    {
      if !exists i :: 0 <= i < b && Strong(adj, ans[i], ans[a]) {
        var s :| s in D - Members(ans) && Strong(adj, s, ans[a]);
        assert s in D' - Members(ans);
      }
    }
  }

  /** The vertices of a path up to any position are reached from its start. */
  lemma PathPrefix(adj: seq<seq<Edge>>, p: seq<int>, k: int)
    requires IsPath(adj, p) && 0 <= k < |p|
    ensures Reaches(adj, p[0], p[k])
  {
    assert IsPath(adj, p[..k + 1]);
  }

  /** A path that starts in `B`, out of which every arc ends in `D`, and
      that ends outside `B`, passes through `D - B`. */
  lemma {:induction false} LeavePath(adj: seq<seq<Edge>>, B: set<int>, D: set<int>, p: seq<int>, k: int) returns (s: int)
    requires IsPath(adj, p) && p[0] in B && 0 <= k < |p| && p[k] !in B
    requires forall u, z :: u in B && Arc(adj, u, z) ==> z in D
    ensures s in D - B && Reaches(adj, p[0], s)
  {
    if p[k - 1] in B {
      assert Arc(adj, p[k - 1], p[k]);
      PathPrefix(adj, p, k);
      s := p[k];
    } else {
      s := LeavePath(adj, B, D, p, k - 1);
    }
  }

  /** Leaving the finished vertices leads through an open one. */
  lemma LeaveFinished(adj: seq<seq<Edge>>, B: set<int>, D: set<int>, u: int, v: int) returns (s: int)
    requires Exits(adj, B, u, v)
    requires forall w, z :: w in B && Arc(adj, w, z) ==> z in D
    ensures s in D - B && Reaches(adj, u, s)
  {
    var p :| IsPath(adj, p) && p[0] == u && p[|p| - 1] == v;
    s := LeavePath(adj, B, D, p, |p| - 1);
  }

  /** Strong connection is transitive. */
  lemma StrongTrans(adj: seq<seq<Edge>>, a: int, b: int, c: int)
    requires Strong(adj, a, b) && Strong(adj, b, c)
    ensures Strong(adj, a, c)
  {
    ReachesTrans(adj, a, b, c);
    ReachesTrans(adj, c, b, a);
  }

  /** Finishing `x`, whose callers all reach it and whose arcs all end at
      discovered vertices, keeps what `Nested` promises. */
  lemma FinishNested(adj: seq<seq<Edge>>, D: set<int>, x: int, acc: seq<int>)
    requires Finished(adj, D, acc) && Nested(adj, D, acc)
    requires x in D && x !in Members(acc)
    requires forall z :: Arc(adj, x, z) ==> z in D
    requires forall s :: s in D && s !in Members(acc) && s != x ==> Reaches(adj, s, x)
    ensures Nested(adj, D, [x] + acc)
  {
    var w := [x] + acc;
    PushFront(acc, x);
    var B := Members(w);
    FinishedArcs(adj, D, x, acc);
    forall u, v | Exits(adj, B, u, v) ensures exists s :: s in D - B && Strong(adj, u, s) {
      FinishedExit(adj, D, x, acc, u, v);
    }
    forall a, b | 0 <= a < |w| && 0 <= b < |w| && OneWay(adj, w[a], w[b])
      ensures || (exists i :: 0 <= i < b && Strong(adj, w[i], w[a]))
              || (exists s :: s in D - B && Strong(adj, s, w[a]))
    {
      FinishedOrder(adj, D, x, acc, a, b);
    }
  }

  /** After finishing `x`, every arc out of a finished vertex ends at a
      discovered one. */
  lemma FinishedArcs(adj: seq<seq<Edge>>, D: set<int>, x: int, acc: seq<int>)
    requires Finished(adj, D, acc) && forall z :: Arc(adj, x, z) ==> z in D
    requires Members([x] + acc) == Members(acc) + {x}
    ensures forall u, z :: u in Members([x] + acc) && Arc(adj, u, z) ==> z in D
  {
    forall u, z | u in Members([x] + acc) && Arc(adj, u, z) ensures z in D {
      if u != x {
        var k :| 0 <= k < |acc| && acc[k] == u;
      }
    }
  }

  /** The first half of `FinishNested`: leaving the finished vertices. */
  lemma FinishedExit(adj: seq<seq<Edge>>, D: set<int>, x: int, acc: seq<int>, u: int, v: int)
    requires Nested(adj, D, acc) && x in D && x !in Members(acc)
    requires Members([x] + acc) == Members(acc) + {x}
    requires forall w, z :: w in Members([x] + acc) && Arc(adj, w, z) ==> z in D
    requires forall s :: s in D && s !in Members(acc) && s != x ==> Reaches(adj, s, x)
    requires Exits(adj, Members([x] + acc), u, v)
    ensures exists s :: s in D - Members([x] + acc) && Strong(adj, u, s)
  {
    var B := Members([x] + acc);
    if u == x {
      var s := LeaveFinished(adj, B, D, x, v);
      assert Strong(adj, u, s);
    } else {
      assert Exits(adj, Members(acc), u, v);
      var s0 :| s0 in D - Members(acc) && Strong(adj, u, s0);
      if s0 == x {
        ReachesTrans(adj, x, u, v);
        var s := LeaveFinished(adj, B, D, x, v);
        assert Strong(adj, x, s);
        StrongTrans(adj, u, x, s);
        assert s in D - B;
      } else {
        assert s0 in D - B;
      }
    }
  }

  /** The second half of `FinishNested`: the order of the list. */
  lemma FinishedOrder(adj: seq<seq<Edge>>, D: set<int>, x: int, acc: seq<int>, a: int, b: int)
    requires Nested(adj, D, acc) && x in D && x !in Members(acc)
    requires Members([x] + acc) == Members(acc) + {x}
    requires 0 <= a < |acc| + 1 && 0 <= b < |acc| + 1 && OneWay(adj, ([x] + acc)[a], ([x] + acc)[b])
    ensures || (exists i :: 0 <= i < b && Strong(adj, ([x] + acc)[i], ([x] + acc)[a]))
            || (exists s :: s in D - Members([x] + acc) && Strong(adj, s, ([x] + acc)[a]))
  {
    var w := [x] + acc;
    var B := Members(w);
    if a == 0 {
      ReachesSelf(adj, x);
      assert Strong(adj, w[0], w[a]);
    } else if b == 0 {
      assert w[a] == acc[a - 1] && w[a] in Members(acc);
      assert Exits(adj, Members(acc), w[a], x);
      var s0 :| s0 in D - Members(acc) && Strong(adj, w[a], s0);
      assert s0 in D - B && Strong(adj, s0, w[a]);
    } else {
      assert w[a] == acc[a - 1] && w[b] == acc[b - 1];
      assert OneWay(adj, acc[a - 1], acc[b - 1]);
      if exists i :: 0 <= i < b - 1 && Strong(adj, acc[i], acc[a - 1]) {
        var i :| 0 <= i < b - 1 && Strong(adj, acc[i], acc[a - 1]);
        assert w[i + 1] == acc[i];
      } else {
        var s :| s in D - Members(acc) && Strong(adj, s, acc[a - 1]);
        if s == x {
          assert Strong(adj, w[0], w[a]);
        } else {
          assert s in D - B;
        }
      }
    }
  }

  /** Finishing the vertex `x`: it goes in front of `acc`, which holds the
      vertices finished since `x` was discovered (all reachable from `x`)
      followed by those finished before. */
  lemma FinishVertex(adj: seq<seq<Edge>>, D0: set<int>, D: set<int>, x: int, block: seq<int>, ans: seq<int>)
    requires Finished(adj, D0, ans) && Finished(adj, D, block + ans)
    requires x !in D0 && x in D && x !in Members(block)
    requires forall z :: Arc(adj, x, z) ==> z in D
    requires forall v :: v in Members(block) ==> Reaches(adj, x, v)
    ensures Finished(adj, D, [x] + (block + ans))
  {
    var acc := block + ans;
    var w := [x] + acc;
    forall k | 0 <= k < |ans| ensures !Arc(adj, ans[k], x) {
    }
    forall i, j | 0 <= i < j < |w| && Arc(adj, w[j], w[i]) ensures Reaches(adj, w[i], w[j]) {
      if i == 0 {
        assert j - 1 < |block|;
        assert w[j] == block[j - 1];
      } else {
        assert w[i] == acc[i - 1] && w[j] == acc[j - 1];
      }
    }
    forall k, z | 0 <= k < |w| && Arc(adj, w[k], z) ensures z in D {
      if k > 0 {
        assert w[k] == acc[k - 1];
      }
    }
    assert Members(w) == Members(acc) + {x} by {
      PushFront(acc, x);
    }
    forall i, j | 0 <= i < j < |w| ensures w[i] != w[j] {
      if i > 0 {
        assert w[i] == acc[i - 1];
      }
      assert w[j] == acc[j - 1];
    }
  }

  /** Prepending a vertex adds exactly that vertex. */
  lemma PushFront(q: seq<int>, u: int)
    ensures Members([u] + q) == Members(q) + {u}
  {
    forall x | x in Members([u] + q) ensures x in Members(q) + {u} {
      var i :| 0 <= i < |[u] + q| && ([u] + q)[i] == x;
      if i > 0 {
        assert q[i - 1] == x;
      }
    }
    forall x | x in Members(q) ensures x in Members([u] + q) {
      var i :| 0 <= i < |q| && q[i] == x;
      assert ([u] + q)[i + 1] == x;
    }
    assert ([u] + q)[0] == u;
  }

  /** The block a recursive call prepends joins the current one. */
  lemma JoinBlock(adj: seq<seq<Edge>>, D0: set<int>, Dy: set<int>, x: int, y: int, more: seq<int>, block: seq<int>)
    requires Arc(adj, x, y) && D0 + {x} <= Dy
    requires forall v :: v in Members(more) ==> v !in Dy && Reaches(adj, y, v)
    ensures Members(more + block) == Members(more) + Members(block)
    ensures forall v :: v in Members(more) ==> v !in D0 && v != x && Reaches(adj, x, v)
  {
    forall v | v in Members(more) ensures Reaches(adj, x, v) {
      ReachesArcThen(adj, x, y, v);
    }
    ConcatMembers(more, block);
  }

  /** What one call finishing from `x` achieves, from the lists and marks
      `lists0`/`marks0` it starts with to the ones `lists`/`marks` it leaves:
      it prepends a block to `ans` that starts with `x` and consists of the
      vertices it newly discovers, all reachable from `x`; the finished list
      stays `Finished`; and it sorts exactly the out-lists of that block. */
  ghost predicate Finishes(adj: seq<seq<Edge>>, x: int, lists0: seq<seq<Edge>>, marks0: seq<bool>, ans: seq<int>,
                           lists: seq<seq<Edge>>, marks: seq<bool>, ans': seq<int>, block: seq<int>)
  {
    && |lists| == |lists0| == |adj| && |marks| == |marks0|
    && ans' == block + ans && |block| > 0 && block[0] == x
    && Marked(marks) == Marked(marks0) + Members(block)
    && (forall v :: v in Members(block) ==> v !in Marked(marks0) && Reaches(adj, x, v))
    && Finished(adj, Marked(marks), ans') && Nested(adj, Marked(marks), ans')
    && (forall u :: 0 <= u < |adj| && u !in Members(block) ==> lists[u] == lists0[u])
    && (forall u :: 0 <= u < |adj| && u in Members(block) ==> SortedByNeighbor(lists[u]))
  }

  /** The state of the neighbour loop of the call on `x` after `i` entries
      of its sorted out-list `list`: `D0` was discovered before the call,
      `block` holds the vertices discovered since, `acc` is the finished
      list and `orig` the out-lists when the call started. */
  ghost predicate Scanned(adj: seq<seq<Edge>>, x: int, list: seq<Edge>, i: int, D0: set<int>, orig: seq<seq<Edge>>,
                          ans: seq<int>, lists: seq<seq<Edge>>, marks: seq<bool>, acc: seq<int>, block: seq<int>)
  {
    && 0 <= i <= |list| && 0 <= x < |adj| && |orig| == |adj| && |marks| == |adj|
    && Permuted(adj, lists)
    && lists[x] == list && SortedByNeighbor(list) && NeighborSet(list) == NeighborSet(adj[x])
    && acc == block + ans && x !in Members(block) && x !in D0
    && Finished(adj, D0, ans)
    && Marked(marks) == D0 + {x} + Members(block)
    && (forall v :: v in Members(block) ==> v !in D0 && Reaches(adj, x, v))
    && Finished(adj, Marked(marks), acc) && Nested(adj, Marked(marks), acc)
    && StackReaches(adj, D0, ans, x)
    && (forall k :: 0 <= k < i ==> list[k].neighbor in Marked(marks))
    && (forall u :: 0 <= u < |adj| && u !in Members(block) && u != x ==> lists[u] == orig[u])
    && (forall u :: 0 <= u < |adj| && u in Members(block) ==> SortedByNeighbor(lists[u]))
  }

  /** The loop starts after `x` is marked and its list sorted. */
  lemma ScanStart(adj: seq<seq<Edge>>, x: int, D0: set<int>, orig: seq<seq<Edge>>, ans: seq<int>,
                  lists: seq<seq<Edge>>, marks: seq<bool>)
    requires 0 <= x < |adj| && |orig| == |adj| == |marks| && Permuted(adj, orig)
    requires x !in D0 && Marked(marks) == D0 + {x} && Finished(adj, D0, ans)
    requires Nested(adj, D0, ans) && StackReaches(adj, D0, ans, x)
    requires |lists| == |adj| && lists == orig[x := lists[x]] && SortedByNeighbor(lists[x]) && multiset(lists[x]) == multiset(orig[x])
    ensures Scanned(adj, x, lists[x], 0, D0, orig, ans, lists, marks, ans, [])
  {
    PermutedNeighbors(lists[x], adj[x]);
    assert Members([]) == {};
    NestedGrows(adj, D0, D0 + {x}, ans);
  }

  /** An entry already discovered is passed over. */
  lemma ScanSkip(adj: seq<seq<Edge>>, x: int, list: seq<Edge>, i: int, D0: set<int>, orig: seq<seq<Edge>>,
                 ans: seq<int>, lists: seq<seq<Edge>>, marks: seq<bool>, acc: seq<int>, block: seq<int>)
    requires Scanned(adj, x, list, i, D0, orig, ans, lists, marks, acc, block) && i < |list|
    requires list[i].neighbor in Marked(marks)
    ensures Scanned(adj, x, list, i + 1, D0, orig, ans, lists, marks, acc, block)
  {
  }

  /** An undiscovered entry may be finished from: the recursive call's
      requirements hold, and it is nearer the end. */
  lemma ScanCallable(adj: seq<seq<Edge>>, x: int, list: seq<Edge>, i: int, D0: set<int>, orig: seq<seq<Edge>>,
                     ans: seq<int>, lists: seq<seq<Edge>>, marks: seq<bool>, acc: seq<int>, block: seq<int>)
    requires Scanned(adj, x, list, i, D0, orig, ans, lists, marks, acc, block) && i < |list|
    ensures Arc(adj, x, list[i].neighbor)
    ensures Finished(adj, Marked(marks), acc) && Nested(adj, Marked(marks), acc)
    ensures StackReaches(adj, Marked(marks), acc, list[i].neighbor)
    ensures |D0| < |Marked(marks)| <= |marks|
  {
    assert list[i] in list;
    MarkedGrows(marks, D0 + {x});
    ConcatMembers(block, ans);
    StackStep(adj, D0, ans, x, list[i].neighbor, Marked(marks), block);
  }

  /** The callers of a call on `y` made from `x` are those of `x` and `x`. */
  lemma StackStep(adj: seq<seq<Edge>>, D0: set<int>, ans: seq<int>, x: int, y: int, D: set<int>, block: seq<int>)
    requires StackReaches(adj, D0, ans, x) && Arc(adj, x, y)
    requires D == D0 + {x} + Members(block) && Members(block + ans) == Members(block) + Members(ans)
    ensures StackReaches(adj, D, block + ans, y)
  {
    ReachesSelf(adj, y);
    ReachesArcThen(adj, x, y, y);
    forall s | s in D && s !in Members(block + ans) ensures Reaches(adj, s, y) {
      if s != x {
        ReachesTrans(adj, s, x, y);
      }
    }
  }

  /** After a recursive call on the entry, its block joins the current one. */
  lemma ScanCall(adj: seq<seq<Edge>>, x: int, list: seq<Edge>, i: int, D0: set<int>, orig: seq<seq<Edge>>,
                 ans: seq<int>, lists: seq<seq<Edge>>, marks: seq<bool>, acc: seq<int>, block: seq<int>,
                 lists': seq<seq<Edge>>, marks': seq<bool>, acc': seq<int>, more: seq<int>)
    requires Scanned(adj, x, list, i, D0, orig, ans, lists, marks, acc, block) && i < |list|
    requires Arc(adj, x, list[i].neighbor) && Permuted(adj, lists')
    requires Finishes(adj, list[i].neighbor, lists, marks, acc, lists', marks', acc', more)
    ensures Scanned(adj, x, list, i + 1, D0, orig, ans, lists', marks', acc', more + block)
  {
    JoinBlock(adj, D0, Marked(marks), x, list[i].neighbor, more, block);
    assert more[0] in Members(more);
  }

  /** Finishing `x` after the loop completes the call. */
  lemma ScanEnd(adj: seq<seq<Edge>>, x: int, list: seq<Edge>, D0: set<int>, orig: seq<seq<Edge>>,
                ans: seq<int>, lists: seq<seq<Edge>>, marks: seq<bool>, acc: seq<int>, block: seq<int>,
                marks0: seq<bool>)
    requires Scanned(adj, x, list, |list|, D0, orig, ans, lists, marks, acc, block)
    requires Marked(marks0) == D0 && |marks0| == |marks|
    ensures Finishes(adj, x, orig, marks0, ans, lists, marks, [x] + acc, [x] + block)
  {
    forall z | Arc(adj, x, z) ensures z in Marked(marks) {
      var e :| e in list && e.neighbor == z;
      var k :| 0 <= k < |list| && list[k] == e;
    }
    FinishVertex(adj, D0, Marked(marks), x, block, ans);
    ConcatMembers(block, ans);
    FinishNested(adj, Marked(marks), x, acc);
    PushFront(block, x);
    ReachesSelf(adj, x);
  }

  // ---------------------------------------------------------------------
  // The order itself

  /** The call on `x` of a depth-first search over the lists `adj` that
      tries the vertices `x` has arcs to in increasing order, started with
      the vertices `marks` discovered: the marks it leaves, and the block it
      puts in front of the finished list (`x` first, then the blocks of the
      calls it makes, latest first). */
  ghost function Visit(adj: seq<seq<Edge>>, marks: seq<bool>, x: int): (res: (seq<bool>, seq<int>))
    requires |marks| == |adj| && 0 <= x < |adj| && !marks[x]
    ensures |res.0| == |marks| && Marked(marks) + {x} <= Marked(res.0)
    decreases |marks| - |Marked(marks)|, 0, 0
  {
    MarkOne(marks, x);
    MarkedGrows(marks[x := true], {});
    var rest := VisitFrom(adj, marks[x := true], x, 0);
    (rest.0, [x] + rest.1)
  }

  /** The rest of the call on `x` from candidate `y` on: each `y` that `x`
      has an arc to and that is not yet discovered is visited in turn. */
  ghost function VisitFrom(adj: seq<seq<Edge>>, marks: seq<bool>, x: int, y: int): (res: (seq<bool>, seq<int>))
    requires |marks| == |adj| && 0 <= x < |adj| && 0 <= y <= |adj|
    ensures |res.0| == |marks| && Marked(marks) <= Marked(res.0)
    decreases |marks| - |Marked(marks)|, 1, |adj| - y
  {
    MarkedGrows(marks, {});
    if y == |adj| then (marks, [])
    else if Arc(adj, x, y) && !marks[y] then
      var first := Visit(adj, marks, y);
      Progress(first.0, Marked(marks), y);
      var rest := VisitFrom(adj, first.0, x, y + 1);
      (rest.0, rest.1 + first.1)
    else
      VisitFrom(adj, marks, x, y + 1)
  }

  /** The restarts of the search from every vertex from `i` on that is not
      yet discovered, in increasing order: the blocks they put in front. */
  ghost function RestartFrom(adj: seq<seq<Edge>>, marks: seq<bool>, i: int): seq<int>
    requires |marks| == |adj| && 0 <= i <= |adj|
    decreases |marks| - |Marked(marks)|, |adj| - i
  {
    MarkedGrows(marks, {});
    if i == |adj| then []
    else if marks[i] then RestartFrom(adj, marks, i + 1)
    else
      var first := Visit(adj, marks, i);
      Progress(first.0, Marked(marks), i);
      RestartFrom(adj, first.0, i + 1) + first.1
  }

  /** The order `dfsReverseFinishingTime(g, src)` returns on the lists
      `adj`: the call on `src` with nothing discovered, then the restarts. */
  ghost function DfsOrder(adj: seq<seq<Edge>>, src: int): seq<int>
    requires 0 <= src < |adj|
  {
    var first := Visit(adj, seq(|adj|, _ => false), src);
    RestartFrom(adj, first.0, 0) + first.1
  }

  /** Two small graphs: arcs 0->1 and 0->2 give `[0, 2, 1]` (the later
      neighbour finishes last and is listed first after `src`); the single
      arc 1->2 seen from 0 gives `[1, 2, 0]` (the restart from 1 goes in front). */
  lemma OrderExamples()
    ensures DfsOrder([[Edge(1, 1), Edge(2, 1)], [], []], 0) == [0, 2, 1]
    ensures DfsOrder([[], [Edge(2, 1)], []], 0) == [1, 2, 0]
  {
    var fan := [[Edge(1, 1), Edge(2, 1)], [], []];
    assert Arc(fan, 0, 1) && Arc(fan, 0, 2) && !Arc(fan, 0, 0);
    var none := [false, false, false];
    assert seq(3, _ => false) == none;
    var m0 := [true, false, false];
    assert VisitFrom(fan, [true, true, true], 0, 3) == ([true, true, true], []);
    var all := [true, true, true];
    assert Arc(fan, 2, 0) == Arc(fan, 2, 1) == Arc(fan, 2, 2) == false;
    assert VisitFrom(fan, all, 2, 2) == (all, []);
    assert VisitFrom(fan, all, 2, 1) == (all, []);
    assert VisitFrom(fan, all, 2, 0) == (all, []);
    assert [true, true, false][2 := true] == all;
    assert [2] + [] == [] + [2] == [2] && [1] + [] == [1] && [2] + [1] == [2, 1] && [0] + [2, 1] == [0, 2, 1];
    assert Visit(fan, [true, true, false], 2) == ([true, true, true], [2]);
    assert VisitFrom(fan, [true, true, false], 0, 2) == ([true, true, true], [2]);
    var m1 := [true, true, false];
    assert Arc(fan, 1, 0) == Arc(fan, 1, 1) == Arc(fan, 1, 2) == false;
    assert VisitFrom(fan, m1, 1, 3) == (m1, []);
    assert VisitFrom(fan, m1, 1, 2) == (m1, []);
    assert VisitFrom(fan, m1, 1, 1) == (m1, []);
    assert VisitFrom(fan, m1, 1, 0) == (m1, []);
    assert m0[1 := true] == m1;
    assert Visit(fan, m0, 1) == (m1, [1]);
    assert VisitFrom(fan, m0, 0, 1) == ([true, true, true], [2, 1]);
    assert VisitFrom(fan, m0, 0, 0) == ([true, true, true], [2, 1]);
    assert none[0 := true] == m0;
    assert Visit(fan, none, 0) == ([true, true, true], [0, 2, 1]);
    assert RestartFrom(fan, [true, true, true], 0) == [];
    var line := [[], [Edge(2, 1)], []];
    assert [0] + [] == [0] && [1] + [2] == [1, 2] && [] + [1, 2] == [1, 2];
    assert Arc(line, 1, 2) && !Arc(line, 1, 0) && !Arc(line, 1, 1);
    assert Visit(line, none, 0) == ([true, false, false], [0]);
    assert Visit(line, [true, true, false], 2) == ([true, true, true], [2]);
    assert Visit(line, [true, false, false], 1) == ([true, true, true], [1, 2]);
    assert RestartFrom(line, [true, false, false], 0) == [1, 2];
  }

  /** Candidates `x` has no arc to, or that are discovered, are passed over. */
  lemma {:induction false} SkipRange(adj: seq<seq<Edge>>, marks: seq<bool>, x: int, a: int, b: int)
    requires |marks| == |adj| && 0 <= x < |adj| && 0 <= a <= b <= |adj|
    requires forall w :: a <= w < b && Arc(adj, x, w) ==> marks[w]
    ensures VisitFrom(adj, marks, x, a) == VisitFrom(adj, marks, x, b)
    decreases b - a
  {
    if a < b {
      SkipRange(adj, marks, x, a + 1, b);
    }
  }

  /** The first neighbour not yet passed after `i` entries of the sorted
      out-list, or `n` at its end. */
  function Bound(list: seq<Edge>, i: int, n: int): int
  {
    if 0 <= i < |list| then list[i].neighbor else n
  }

  /** The out-list the call scans: sorted, with distinct neighbours in
      range, and the neighbours of `x` in `adj`. */
  ghost predicate ScanList(adj: seq<seq<Edge>>, x: int, list: seq<Edge>)
  {
    && 0 <= x < |adj| && SortedByNeighbor(list) && DistinctNeighbors(list)
    && NeighborSet(list) == NeighborSet(adj[x])
    && forall k :: 0 <= k < |list| ==> 0 <= list[k].neighbor < |adj|
  }

  /** Every vertex `x` has an arc to below the bound is one of the first
      `i` entries. */
  lemma BelowBound(adj: seq<seq<Edge>>, x: int, list: seq<Edge>, i: int, w: int)
    requires ScanList(adj, x, list) && 0 <= i <= |list|
    requires Arc(adj, x, w) && w < Bound(list, i, |adj|)
    ensures exists k :: 0 <= k < i && list[k].neighbor == w
  {
    var e :| e in list && e.neighbor == w;
    var k :| 0 <= k < |list| && list[k] == e;
    if k >= i {
      SortedPairwise(list, i, k);
    }
  }

  /** The bound lies in range and moves up strictly. */
  lemma BoundRange(adj: seq<seq<Edge>>, x: int, list: seq<Edge>, i: int)
    requires ScanList(adj, x, list) && 0 <= i <= |list|
    ensures 0 <= Bound(list, i, |adj|) <= |adj|
    ensures i < |list| ==> Bound(list, i, |adj|) < Bound(list, i + 1, |adj|)
  {
    if i + 1 < |list| {
      SortedPairwise(list, i, i + 1);
    }
  }

  /** The reference call on `x` from the marks `mx` is the rest of its scan
      from `y` with the marks `marks`, followed by `block`. */
  ghost predicate Resumes(adj: seq<seq<Edge>>, x: int, mx: seq<bool>, marks: seq<bool>, y: int, block: seq<int>)
  {
    && |mx| == |adj| && |marks| == |adj| && 0 <= x < |adj| && 0 <= y <= |adj|
    && VisitFrom(adj, mx, x, 0) == (VisitFrom(adj, marks, x, y).0, VisitFrom(adj, marks, x, y).1 + block)
  }

  /** Before the first entry nothing was passed. */
  lemma ResumeStart(adj: seq<seq<Edge>>, x: int, list: seq<Edge>, mx: seq<bool>)
    requires ScanList(adj, x, list) && |mx| == |adj|
    ensures Resumes(adj, x, mx, mx, Bound(list, 0, |adj|), [])
  {
    BoundRange(adj, x, list, 0);
    forall w | 0 <= w < Bound(list, 0, |adj|) ensures !Arc(adj, x, w) {
      if Arc(adj, x, w) {
        BelowBound(adj, x, list, 0, w);
      }
    }
    SkipRange(adj, mx, x, 0, Bound(list, 0, |adj|));
    assert VisitFrom(adj, mx, x, 0).1 + [] == VisitFrom(adj, mx, x, 0).1;
  }

  /** An entry already discovered is passed over by the reference too. */
  lemma ResumeSkip(adj: seq<seq<Edge>>, x: int, list: seq<Edge>, i: int, mx: seq<bool>, marks: seq<bool>, block: seq<int>)
    requires ScanList(adj, x, list) && 0 <= i < |list|
    requires Resumes(adj, x, mx, marks, Bound(list, i, |adj|), block)
    requires forall k :: 0 <= k <= i ==> list[k].neighbor in Marked(marks)
    ensures Resumes(adj, x, mx, marks, Bound(list, i + 1, |adj|), block)
  {
    BoundRange(adj, x, list, i);
    BoundRange(adj, x, list, i + 1);
    forall w | Bound(list, i, |adj|) <= w < Bound(list, i + 1, |adj|) && Arc(adj, x, w) ensures marks[w] {
      BelowBound(adj, x, list, i + 1, w);
    }
    SkipRange(adj, marks, x, Bound(list, i, |adj|), Bound(list, i + 1, |adj|));
  }

  /** An undiscovered entry is where the reference calls too; its block
      goes in front of the ones before. */
  lemma ResumeCall(adj: seq<seq<Edge>>, x: int, list: seq<Edge>, i: int, mx: seq<bool>, marks: seq<bool>,
                   block: seq<int>, marks': seq<bool>, more: seq<int>)
    requires ScanList(adj, x, list) && 0 <= i < |list|
    requires Resumes(adj, x, mx, marks, Bound(list, i, |adj|), block)
    requires !marks[list[i].neighbor] && Visit(adj, marks, list[i].neighbor) == (marks', more)
    requires forall k :: 0 <= k <= i ==> list[k].neighbor in Marked(marks')
    ensures Resumes(adj, x, mx, marks', Bound(list, i + 1, |adj|), more + block)
  {
    var y := list[i].neighbor;
    assert list[i] in list;
    BoundRange(adj, x, list, i);
    SkipAfterCall(adj, x, list, i, marks');
    var rest := VisitFrom(adj, marks', x, y + 1);
    VisitFromCall(adj, marks, x, y, marks', more);
    assert (rest.1 + more) + block == rest.1 + (more + block);
  }

  /** Once the first `i + 1` entries are discovered, the reference scan
      passes from just after entry `i` to the next entry's neighbour. */
  lemma SkipAfterCall(adj: seq<seq<Edge>>, x: int, list: seq<Edge>, i: int, marks: seq<bool>)
    requires ScanList(adj, x, list) && 0 <= i < |list| && |marks| == |adj|
    requires forall k :: 0 <= k <= i ==> list[k].neighbor in Marked(marks)
    ensures list[i].neighbor + 1 <= Bound(list, i + 1, |adj|) <= |adj|
    ensures VisitFrom(adj, marks, x, list[i].neighbor + 1) == VisitFrom(adj, marks, x, Bound(list, i + 1, |adj|))
  {
    var y := list[i].neighbor;
    BoundRange(adj, x, list, i);
    BoundRange(adj, x, list, i + 1);
    forall w | y + 1 <= w < Bound(list, i + 1, |adj|) && Arc(adj, x, w) ensures marks[w] {
      BelowBound(adj, x, list, i + 1, w);
    }
    SkipRange(adj, marks, x, y + 1, Bound(list, i + 1, |adj|));
  }

  /** The reference scan at an undiscovered out-neighbour `y` calls on it
      and puts the call's block behind the rest of the scan. */
  lemma VisitFromCall(adj: seq<seq<Edge>>, marks: seq<bool>, x: int, y: int, marks': seq<bool>, more: seq<int>)
    requires |marks| == |adj| && 0 <= x < |adj| && 0 <= y < |adj|
    requires Arc(adj, x, y) && !marks[y] && Visit(adj, marks, y) == (marks', more)
    ensures |marks'| == |adj|
    ensures VisitFrom(adj, marks, x, y) == (VisitFrom(adj, marks', x, y + 1).0, VisitFrom(adj, marks', x, y + 1).1 + more)
  {
  }

  /** After the last entry the reference call is complete. */
  lemma ResumeEnd(adj: seq<seq<Edge>>, x: int, list: seq<Edge>, marks0: seq<bool>, marks: seq<bool>, block: seq<int>)
    requires |marks0| == |adj| && 0 <= x < |adj| && !marks0[x]
    requires Resumes(adj, x, marks0[x := true], marks, Bound(list, |list|, |adj|), block)
    ensures Visit(adj, marks0, x) == (marks, [x] + block)
  {
    assert VisitFrom(adj, marks, x, |adj|) == (marks, []);
    assert [] + block == block;
  }

  /** One round of the neighbour loop of the call on `x`: entry `i` of its
      sorted out-list is called on when undiscovered and passed over
      otherwise. */
  method ScanEntry(g: WDGraph, x: int, list: seq<Edge>, i: int, discovered: array<bool>, ghost D0: set<int>,
                   ghost orig: seq<seq<Edge>>, ghost ans: seq<int>, acc: seq<int>, ghost block: seq<int>,
                   ghost mx: seq<bool>, ghost adj: seq<seq<Edge>>)
      returns (acc': seq<int>, ghost block': seq<int>)
    requires Walkable(g, discovered, adj) && i < |list|
    requires Scanned(adj, x, list, i, D0, orig, ans, g.outLists, discovered[..], acc, block)
    requires ScanList(adj, x, list) && Resumes(adj, x, mx, discovered[..], Bound(list, i, |adj|), block)
    modifies g, discovered
    decreases discovered.Length - |Marked(discovered[..])|, 1
    ensures Walkable(g, discovered, adj) && g.inLists == old(g.inLists)
    ensures Scanned(adj, x, list, i + 1, D0, orig, ans, g.outLists, discovered[..], acc', block')
    ensures Resumes(adj, x, mx, discovered[..], Bound(list, i + 1, |adj|), block')
  {
    var y := list[i].neighbor;
    if !discovered[y] {
      ScanCallable(adj, x, list, i, D0, orig, ans, g.outLists, discovered[..], acc, block);
      ghost var lists0, marks1 := g.outLists, discovered[..];
      ghost var more;
      acc', more := FinishFrom(g, y, discovered, acc, adj);
      ScanCall(adj, x, list, i, D0, orig, ans, lists0, marks1, acc, block, g.outLists, discovered[..], acc', more);
      ResumeCall(adj, x, list, i, mx, marks1, block, discovered[..], more);
      block' := more + block;
    } else {
      ScanSkip(adj, x, list, i, D0, orig, ans, g.outLists, discovered[..], acc, block);
      ResumeSkip(adj, x, list, i, mx, discovered[..], block);
      acc', block' := acc, block;
    }
  }

  /** The neighbour loop of the call on `x`, over its sorted out-list. */
  method ScanAll(g: WDGraph, x: int, list: seq<Edge>, discovered: array<bool>, ghost D0: set<int>,
                 ghost orig: seq<seq<Edge>>, ans: seq<int>, ghost mx: seq<bool>, ghost adj: seq<seq<Edge>>)
      returns (acc: seq<int>, ghost block: seq<int>)
    requires Walkable(g, discovered, adj)
    requires Scanned(adj, x, list, 0, D0, orig, ans, g.outLists, discovered[..], ans, [])
    requires ScanList(adj, x, list) && Resumes(adj, x, mx, discovered[..], Bound(list, 0, |adj|), [])
    modifies g, discovered
    decreases discovered.Length - |D0| - 1, 2
    ensures Walkable(g, discovered, adj) && g.inLists == old(g.inLists)
    ensures Scanned(adj, x, list, |list|, D0, orig, ans, g.outLists, discovered[..], acc, block)
    ensures Resumes(adj, x, mx, discovered[..], Bound(list, |list|, |adj|), block)
  {
    acc := ans;
    block := [];
    var i := 0;
    while i < |list|
      invariant Walkable(g, discovered, adj) && g.inLists == old(g.inLists)
      invariant Scanned(adj, x, list, i, D0, orig, ans, g.outLists, discovered[..], acc, block)
      invariant ScanList(adj, x, list) && Resumes(adj, x, mx, discovered[..], Bound(list, i, |adj|), block)
    {
      Progress(discovered[..], D0, x);
      acc, block := ScanEntry(g, x, list, i, discovered, D0, orig, ans, acc, block, mx, adj);
      i := i + 1;
    }
  }

  /** `dfsReverseFinishingTimeHelper(g, x, discovered, ans)`: marks `x`,
      sorts its out-list, recurses on each undiscovered neighbour in list
      order, then puts `x` in front of `ans`. The ghost result `block` is
      what this call prepends. */
  method FinishFrom(g: WDGraph, x: int, discovered: array<bool>, ans: seq<int>, ghost adj: seq<seq<Edge>>)
      returns (ans': seq<int>, ghost block: seq<int>)
    requires Walkable(g, discovered, adj)
    requires 0 <= x < discovered.Length && !discovered[x]
    requires Finished(adj, Marked(discovered[..]), ans) && Nested(adj, Marked(discovered[..]), ans)
    requires StackReaches(adj, Marked(discovered[..]), ans, x)
    modifies g, discovered
    decreases discovered.Length - |Marked(discovered[..])|, 0
    ensures Walkable(g, discovered, adj) && g.inLists == old(g.inLists)
    ensures Finishes(adj, x, old(g.outLists), old(discovered[..]), ans, g.outLists, discovered[..], ans', block)
    ensures Visit(adj, old(discovered[..]), x) == (discovered[..], block)
  {
    ghost var D0 := Marked(discovered[..]);
    ghost var orig := g.outLists;
    ghost var marks0 := discovered[..];
    MarkOne(discovered[..], x);
    discovered[x] := true;
    ghost var mx := discovered[..];
    assert mx == marks0[x := true];
    SortOutList(g, x);
    var list := g.outLists[x];
    ScanStart(adj, x, D0, orig, ans, g.outLists, discovered[..]);
    assert ScanList(adj, x, list);
    ResumeStart(adj, x, list, mx);
    var acc;
    Progress(discovered[..], D0, x);
    acc, block := ScanAll(g, x, list, discovered, D0, orig, ans, mx, adj);
    ScanEnd(adj, x, list, D0, orig, ans, g.outLists, discovered[..], acc, block, marks0);
    ResumeEnd(adj, x, list, marks0, discovered[..], block);
    block := [x] + block;
    ans' := [x] + acc;
  }

  /** The promise of `dfsReverseFinishingTime` for a graph with lists `adj`
      searched first from `src`: every vertex exactly once; an arc from a
      vertex to one listed earlier closes a cycle (so without cycles the
      order is topological); and the vertices from `src` onwards are
      exactly those `src` reaches, the ones the first search finished. */
  ghost predicate ReverseFinishOrder(adj: seq<seq<Edge>>, src: int, r: seq<int>)
  {
    && Distinct(r)
    && (forall v :: v in r <==> 0 <= v < |adj|)
    && BackArcsClose(adj, r)
    && ComponentsFirst(adj, r)
    && (forall k :: 0 <= k < |r| && r[k] == src ==> forall v :: v in r[k..] <==> Reaches(adj, src, v))
  }

  /** The order Kosaraju's second pass relies on: when `r[a]` reaches
      `r[b]` but not the other way round, a vertex strongly connected to
      `r[a]` is listed before `r[b]`. */
  ghost predicate ComponentsFirst(adj: seq<seq<Edge>>, r: seq<int>)
  {
    forall a, b {:trigger OneWay(adj, r[a], r[b])} :: 0 <= a < |r| && 0 <= b < |r| && OneWay(adj, r[a], r[b]) ==>
      exists i :: 0 <= i < b && Strong(adj, r[i], r[a])
  }

  /** No arc lies on a cycle. */
  ghost predicate Acyclic(adj: seq<seq<Edge>>)
  {
    forall u, v :: Arc(adj, u, v) ==> !Reaches(adj, v, u)
  }

  /** Without cycles the reverse finishing order is a topological order:
      every arc points to a vertex listed later. */
  lemma TopologicalWhenAcyclic(adj: seq<seq<Edge>>, src: int, r: seq<int>)
    requires ReverseFinishOrder(adj, src, r) && Acyclic(adj)
    ensures forall i, j :: 0 <= i < j < |r| ==> !Arc(adj, r[j], r[i])
  {
  }

  /** The state of the restart loop of `dfsReverseFinishingTime` after the
      vertices below `i` were tried: every discovered vertex is finished,
      `tree` (the search from `src`) ends the list, and the out-lists of the
      finished vertices are sorted while the others are untouched. */
  ghost predicate Covered(adj: seq<seq<Edge>>, src: int, orig: seq<seq<Edge>>, lists: seq<seq<Edge>>,
                          marks: seq<bool>, ans: seq<int>, tree: seq<int>, i: int)
  {
    && 0 <= i <= |marks| && |marks| == |adj| == |orig| == |lists|
    && Marked(marks) == Members(ans) && Finished(adj, Marked(marks), ans) && Nested(adj, Marked(marks), ans)
    && (forall j :: 0 <= j < i ==> marks[j])
    && 0 < |tree| <= |ans| && ans[|ans| - |tree|..] == tree && tree[0] == src
    && (forall v :: v in Members(tree) <==> Reaches(adj, src, v))
    && (forall u :: 0 <= u < |adj| ==> if marks[u] then SortedByNeighbor(lists[u]) else lists[u] == orig[u])
  }

  /** The first search, from `src` with nothing discovered, finishes
      exactly the vertices `src` reaches. */
  lemma CoverStart(adj: seq<seq<Edge>>, src: int, orig: seq<seq<Edge>>, marks0: seq<bool>,
                   lists: seq<seq<Edge>>, marks: seq<bool>, ans: seq<int>, block: seq<int>)
    requires |orig| == |adj| == |marks0| && 0 <= src < |adj| && Marked(marks0) == {}
    requires Finishes(adj, src, orig, marks0, [], lists, marks, ans, block)
    ensures Covered(adj, src, orig, lists, marks, ans, ans, 0)
  {
    var S := Members(ans);
    assert ans == block;
    forall u, z | u in S && Arc(adj, u, z) ensures z in S {
      var k :| 0 <= k < |ans| && ans[k] == u;
    }
    forall v ensures v in S <==> Reaches(adj, src, v) {
      assert ans[0] in S;
      if Reaches(adj, src, v) {
        ClosedReaches(adj, S, src, v);
      }
    }
    forall u | 0 <= u < |adj| && !marks[u] ensures lists[u] == orig[u] {
      assert u !in Marked(marks);
    }
  }

  /** A restart from an undiscovered `i` keeps the loop's state. */
  lemma CoverCall(adj: seq<seq<Edge>>, src: int, orig: seq<seq<Edge>>, lists: seq<seq<Edge>>,
                  marks: seq<bool>, ans: seq<int>, tree: seq<int>, i: int,
                  lists': seq<seq<Edge>>, marks': seq<bool>, ans': seq<int>, block: seq<int>)
    requires Covered(adj, src, orig, lists, marks, ans, tree, i) && i < |marks| && !marks[i]
    requires Finishes(adj, i, lists, marks, ans, lists', marks', ans', block)
    ensures Covered(adj, src, orig, lists', marks', ans', tree, i + 1)
  {
    CoverMarks(marks, ans, i, marks', ans', block);
    assert ans'[|ans'| - |tree|..] == ans[|ans| - |tree|..];
    CoverLists(adj, orig, lists, marks, lists', marks', block);
  }

  /** The marks after a restart from `i` are the finished vertices, and
      cover everything up to `i`. */
  lemma CoverMarks(marks: seq<bool>, ans: seq<int>, i: int, marks': seq<bool>, ans': seq<int>, block: seq<int>)
    requires Marked(marks) == Members(ans) && 0 <= i < |marks| == |marks'| && (forall j :: 0 <= j < i ==> marks[j])
    requires ans' == block + ans && |block| > 0 && block[0] == i
    requires Marked(marks') == Marked(marks) + Members(block)
    ensures Marked(marks') == Members(ans') && forall j :: 0 <= j < i + 1 ==> marks'[j]
  {
    assert block[0] in Members(block);
    ConcatMembers(block, ans);
    forall j | 0 <= j < i + 1 ensures marks'[j] {
      assert j in Marked(marks');
    }
  }

  /** A restart sorts the out-lists of exactly the vertices it marks. */
  lemma CoverLists(adj: seq<seq<Edge>>, orig: seq<seq<Edge>>, lists: seq<seq<Edge>>, marks: seq<bool>,
                   lists': seq<seq<Edge>>, marks': seq<bool>, block: seq<int>)
    requires |marks| == |marks'| == |adj| == |lists| == |lists'| == |orig|
    requires forall u :: 0 <= u < |adj| ==> if marks[u] then SortedByNeighbor(lists[u]) else lists[u] == orig[u]
    requires Marked(marks') == Marked(marks) + Members(block)
    requires forall u :: 0 <= u < |adj| && u !in Members(block) ==> lists'[u] == lists[u]
    requires forall u :: 0 <= u < |adj| && u in Members(block) ==> SortedByNeighbor(lists'[u])
    ensures forall u :: 0 <= u < |adj| ==> if marks'[u] then SortedByNeighbor(lists'[u]) else lists'[u] == orig[u]
  {
    forall u | 0 <= u < |adj| ensures if marks'[u] then SortedByNeighbor(lists'[u]) else lists'[u] == orig[u] {
      assert marks'[u] <==> u in Marked(marks');
      assert marks[u] <==> u in Marked(marks);
    }
  }

  /** A restart is skipped when `i` was already discovered. */
  lemma CoverSkip(adj: seq<seq<Edge>>, src: int, orig: seq<seq<Edge>>, lists: seq<seq<Edge>>,
                  marks: seq<bool>, ans: seq<int>, tree: seq<int>, i: int)
    requires Covered(adj, src, orig, lists, marks, ans, tree, i) && i < |marks| && marks[i]
    ensures Covered(adj, src, orig, lists, marks, ans, tree, i + 1)
  {
  }

  /** When every vertex was tried the list is the promised order. */
  lemma CoverEnd(adj: seq<seq<Edge>>, src: int, orig: seq<seq<Edge>>, lists: seq<seq<Edge>>,
                 marks: seq<bool>, ans: seq<int>, tree: seq<int>, n: int)
    requires n == |marks| && Covered(adj, src, orig, lists, marks, ans, tree, n)
    ensures ReverseFinishOrder(adj, src, ans)
    ensures forall u :: 0 <= u < |adj| ==> SortedByNeighbor(lists[u])
  {
    forall v ensures v in ans <==> 0 <= v < |adj| {
      if 0 <= v < |adj| {
        assert v in Marked(marks);
        var k :| 0 <= k < |ans| && ans[k] == v;
      }
      if v in ans {
        var k :| 0 <= k < |ans| && ans[k] == v;
        assert v in Members(ans);
      }
    }
    forall a, b | 0 <= a < |ans| && 0 <= b < |ans| && OneWay(adj, ans[a], ans[b])
      ensures exists i :: 0 <= i < b && Strong(adj, ans[i], ans[a])
    {
      assert Marked(marks) - Members(ans) == {};
    }
    var t := |ans| - |tree|;
    assert ans[t] == src;
    forall k | 0 <= k < |ans| && ans[k] == src ensures forall v :: v in ans[k..] <==> Reaches(adj, src, v) {
      assert k == t;
      forall v ensures v in tree <==> v in Members(tree) {
        if v in tree {
          var j :| 0 <= j < |tree| && tree[j] == v;
        }
      }
    }
  }

  /** A restart from an undiscovered `i` puts the block of the call on `i`
      in front; the reference restarts do the same. */
  lemma RestartCall(adj: seq<seq<Edge>>, start: seq<bool>, ans: seq<int>, marks: seq<bool>, i: int,
                    acc: seq<int>, marks': seq<bool>, block: seq<int>)
    requires |start| == |marks| == |adj| && 0 <= i < |adj| && !marks[i]
    requires RestartFrom(adj, start, 0) + ans == RestartFrom(adj, marks, i) + acc
    requires Visit(adj, marks, i) == (marks', block)
    ensures RestartFrom(adj, start, 0) + ans == RestartFrom(adj, marks', i + 1) + (block + acc)
  {
    RestartUnfold(adj, marks, i, marks', block);
    var rest := RestartFrom(adj, marks', i + 1);
    assert (rest + block) + acc == rest + (block + acc);
  }

  /** One step of the reference restarts at an undiscovered `i`. */
  lemma RestartUnfold(adj: seq<seq<Edge>>, marks: seq<bool>, i: int, marks': seq<bool>, block: seq<int>)
    requires |marks| == |adj| && 0 <= i < |adj| && !marks[i]
    requires Visit(adj, marks, i) == (marks', block)
    ensures |marks'| == |adj| && RestartFrom(adj, marks, i) == RestartFrom(adj, marks', i + 1) + block
  {
  }

  /** A discovered `i` is passed over by the reference restarts too. */
  lemma RestartPass(adj: seq<seq<Edge>>, marks: seq<bool>, i: int)
    requires |marks| == |adj| && 0 <= i < |adj| && marks[i]
    ensures RestartFrom(adj, marks, i) == RestartFrom(adj, marks, i + 1)
  {
  }

  /** The search from `src` followed by the restarts is the reference order. */
  lemma OrderIsReference(adj: seq<seq<Edge>>, src: int, none: seq<bool>, marks: seq<bool>, tree: seq<int>,
                         first: seq<int>, ans: seq<int>)
    requires 0 <= src < |adj| && none == seq(|adj|, _ => false)
    requires Visit(adj, none, src) == (marks, tree) && first == tree + []
    requires ans == RestartFrom(adj, marks, 0) + first
    ensures ans == DfsOrder(adj, src)
  {
    assert first == tree;
  }

  /** `dfsReverseFinishingTime(g, src)`. The bound check lets `src ==
      getSize()` through to the array access; a transposed view has no
      out-lists of its own, so sorting one fails. The search from `src`
      comes first, then restarts from every vertex still undiscovered, in
      increasing order. */
  method ReverseFinishingTime(g: WDGraph?, src: int) returns (r: Result<seq<int>>)
    requires g != null ==> g.Valid()
    modifies g
    ensures g == null ==> r == Failure(IllegalArgument)
    ensures g != null ==> g.Valid() && g.inLists == old(g.inLists) && g.numVert == old(g.numVert)
    ensures g != null && (src < 0 || src > g.GetSize()) ==> r == Failure(IllegalArgument)
    ensures g != null && src == g.GetSize() ==> r == Failure(IndexOutOfBounds)
    ensures g != null && g.base != null && 0 <= src < g.GetSize() ==> r == Failure(NullPointer)
    ensures g != null && r.Failure? ==> g.outLists == old(g.outLists)
    ensures g != null && g.base == null && 0 <= src < g.GetSize() ==>
              && r.Success? && ReverseFinishOrder(old(g.outLists), src, r.value)
              && r.value == DfsOrder(old(g.outLists), src)
              && forall u :: 0 <= u < |g.outLists| ==>
                   SortedByNeighbor(g.outLists[u]) && multiset(g.outLists[u]) == multiset(old(g.outLists[u]))
  {
    if g == null {
      return Failure(IllegalArgument);
    }
    var n := g.GetSize();
    if src < 0 || src > n {
      return Failure(IllegalArgument);
    }
    if src == n {
      return Failure(IndexOutOfBounds);
    }
    if g.base != null {
      return Failure(NullPointer);
    }
    var ans := SearchAll(g, src);
    return Success(ans);
  }

  /** The loop of `dfsReverseFinishingTime` that restarts the search from
      every vertex still undiscovered, in increasing order. */
  method Restarts(g: WDGraph, discovered: array<bool>, ans: seq<int>, ghost src: int, ghost adj: seq<seq<Edge>>,
                  ghost tree: seq<int>)
      returns (ans': seq<int>)
    requires Walkable(g, discovered, adj)
    requires Covered(adj, src, adj, g.outLists, discovered[..], ans, tree, 0)
    modifies g, discovered
    ensures Walkable(g, discovered, adj) && g.inLists == old(g.inLists)
    ensures Covered(adj, src, adj, g.outLists, discovered[..], ans', tree, discovered.Length)
    ensures ans' == RestartFrom(adj, old(discovered[..]), 0) + ans
  {
    ghost var start := discovered[..];
    ans' := ans;
    var i := 0;
    while i < discovered.Length
      invariant Walkable(g, discovered, adj) && g.inLists == old(g.inLists)
      invariant Covered(adj, src, adj, g.outLists, discovered[..], ans', tree, i)
      invariant RestartFrom(adj, start, 0) + ans == RestartFrom(adj, discovered[..], i) + ans'
    {
      if !discovered[i] {
        ghost var lists0, marks0 := g.outLists, discovered[..];
        var next, block := FinishFrom(g, i, discovered, ans', adj);
        CoverCall(adj, src, adj, lists0, marks0, ans', tree, i, g.outLists, discovered[..], next, block);
        RestartCall(adj, start, ans, marks0, i, ans', discovered[..], block);
        ans' := next;
      } else {
        CoverSkip(adj, src, adj, g.outLists, discovered[..], ans', tree, i);
        RestartPass(adj, discovered[..], i);
      }
      i := i + 1;
    }
    assert RestartFrom(adj, discovered[..], i) == [];
  }

  /** The search from `src` followed by the restarts, on a graph that is not
      a transposed view. */
  method SearchAll(g: WDGraph, src: int) returns (ans: seq<int>)
    requires g.Valid() && g.base == null && 0 <= src < |g.outLists|
    modifies g
    ensures g.Valid() && g.base == null && g.inLists == old(g.inLists) && g.numVert == old(g.numVert)
    ensures ReverseFinishOrder(old(g.outLists), src, ans) && ans == DfsOrder(old(g.outLists), src)
    ensures forall u :: 0 <= u < |g.outLists| ==>
              SortedByNeighbor(g.outLists[u]) && multiset(g.outLists[u]) == multiset(old(g.outLists[u]))
  {
    var n := g.numVert;
    ghost var adj := g.outLists;
    var discovered := new bool[n](_ => false);
    assert discovered[..] == seq(|adj|, _ => false);
    assert Marked(discovered[..]) == {};
    assert Members([]) == {};
    ghost var marks0 := discovered[..];
    ghost var tree;
    ans, tree := FinishFrom(g, src, discovered, [], adj);
    CoverStart(adj, src, adj, marks0, g.outLists, discovered[..], ans, tree);
    ghost var first, m1 := ans, discovered[..];
    ans := Restarts(g, discovered, ans, src, adj, first);
    CoverEnd(adj, src, adj, g.outLists, discovered[..], ans, first, discovered.Length);
    OrderIsReference(adj, src, marks0, m1, tree, first, ans);
  }

  /** What one call exploring from `x` achieves, from the marks `marks0` it
      starts with to the marks `marks` it leaves: `x` is marked, everything
      newly marked is reachable from `x`, and every arc out of a newly marked
      vertex ends at a marked one. */
  ghost predicate Explores(adj: seq<seq<Edge>>, x: int, marks0: seq<bool>, marks: seq<bool>)
  {
    && |marks| == |marks0| && Marked(marks0) + {x} <= Marked(marks)
    && forall v :: v in Marked(marks) - Marked(marks0) ==>
         Reaches(adj, x, v) && forall z :: Arc(adj, v, z) ==> z in Marked(marks)
  }

  /** The state of the neighbour loop of the call on `x`: `nbrs` are the
      out-neighbours of `x`, those outside `rest` were visited, and `D0` was
      marked before the call. */
  ghost predicate Exploring(adj: seq<seq<Edge>>, x: int, D0: set<int>, nbrs: set<int>, rest: set<int>, marks: seq<bool>)
  {
    && |marks| == |adj| && InRange(adj) && rest <= nbrs && x !in D0
    && (forall z :: z in nbrs <==> Arc(adj, x, z))
    && D0 + {x} <= Marked(marks)
    && (forall z :: z in nbrs - rest ==> z in Marked(marks))
    && forall v :: v in Marked(marks) - D0 ==>
         Reaches(adj, x, v) && (v != x ==> forall z :: Arc(adj, v, z) ==> z in Marked(marks))
  }

  /** The loop starts once `x` is marked. */
  lemma ExploreStart(adj: seq<seq<Edge>>, x: int, D0: set<int>, nbrs: set<int>, marks: seq<bool>)
    requires |marks| == |adj| && InRange(adj) && x !in D0 && Marked(marks) == D0 + {x}
    requires forall z :: z in nbrs <==> Arc(adj, x, z)
    ensures Exploring(adj, x, D0, nbrs, nbrs, marks)
  {
    ReachesSelf(adj, x);
  }

  /** A neighbour explored by a recursive call joins what `x` reaches. */
  lemma ExploreCall(adj: seq<seq<Edge>>, x: int, D0: set<int>, nbrs: set<int>, rest: set<int>, marks: seq<bool>,
                    i: int, marks': seq<bool>)
    requires Exploring(adj, x, D0, nbrs, rest, marks) && i in rest
    requires Explores(adj, i, marks, marks')
    ensures Exploring(adj, x, D0, nbrs, rest - {i}, marks')
  {
    forall v | v in Marked(marks') - D0
      ensures Reaches(adj, x, v) && (v != x ==> forall z :: Arc(adj, v, z) ==> z in Marked(marks'))
    {
      if v !in Marked(marks) {
        ReachesArcThen(adj, x, i, v);
      }
    }
  }

  /** The loop ends with every arc out of `x` followed. */
  lemma ExploreEnd(adj: seq<seq<Edge>>, x: int, marks0: seq<bool>, nbrs: set<int>, marks: seq<bool>)
    requires Exploring(adj, x, Marked(marks0), nbrs, {}, marks) && |marks0| == |marks|
    ensures Explores(adj, x, marks0, marks)
  {
    forall v | v in Marked(marks) - Marked(marks0)
      ensures Reaches(adj, x, v) && forall z :: Arc(adj, v, z) ==> z in Marked(marks)
    {
      if v == x {
        forall z | Arc(adj, x, z) ensures z in Marked(marks) {
          assert z in nbrs - {};
        }
      }
    }
  }

  /** `dfsExploreComponentHelper(g, x, discovered, ans)`: marks `x`, adds it
      to `ans`, and recurses on every undiscovered out-neighbour, taken from
      the neighbour set in no particular order. `ans` and the marks stay
      equal throughout. */
  method ExploreFrom(g: WDGraph, x: int, discovered: array<bool>, ans: set<int>, ghost adj: seq<seq<Edge>>)
      returns (ans': set<int>)
    requires g.Valid() && adj == g.Out() && discovered.Length == |adj|
    requires 0 <= x < |adj| && !discovered[x] && ans == Marked(discovered[..])
    modifies discovered
    decreases discovered.Length - |Marked(discovered[..])|
    ensures ans' == Marked(discovered[..])
    ensures Explores(adj, x, old(discovered[..]), discovered[..])
  {
    ghost var D0 := Marked(discovered[..]);
    MarkOne(discovered[..], x);
    discovered[x] := true;
    ans' := ans + {x};
    g.ViewMirrored();
    var r := g.OutNeighbors(x);
    var nbrs := r.value;
    ExploreStart(adj, x, D0, nbrs, discovered[..]);
    var rest := nbrs;
    while rest != {}
      invariant ans' == Marked(discovered[..])
      invariant Exploring(adj, x, D0, nbrs, rest, discovered[..])
      decreases |rest|
    {
      assert exists y :: y in rest by {
        // a set with no member is empty
        assert (forall y :: y !in rest) ==> rest == {};
      }
      var i :| i in rest;
      ArcInRange(adj, x, i);
      if !discovered[i] {
        Progress(discovered[..], D0, x);
        ghost var marks := discovered[..];
        ans' := ExploreFrom(g, i, discovered, ans', adj);
        ExploreCall(adj, x, D0, nbrs, rest, marks, i, discovered[..]);
      }
      rest := rest - {i};
    }
    ExploreEnd(adj, x, old(discovered[..]), nbrs, discovered[..]);
  }

  /** With nothing marked before, one exploration marks exactly what its
      start reaches. */
  lemma ExploredAll(adj: seq<seq<Edge>>, src: int, marks0: seq<bool>, marks: seq<bool>)
    requires Marked(marks0) == {} && Explores(adj, src, marks0, marks)
    ensures forall v :: v in Marked(marks) <==> Reaches(adj, src, v)
  {
    var S := Marked(marks);
    forall u, z | u in S && Arc(adj, u, z) ensures z in S {
      assert u in Marked(marks) - Marked(marks0);
    }
    forall v | Reaches(adj, src, v) ensures v in S {
      ClosedReaches(adj, S, src, v);
    }
  }

  /** `dfsExploreComponent(g, src)`: the set of vertices `src` reaches. It
      reads the graph through `outNeighbors` only, so it also works on a
      transposed view; the bound check lets `src == getSize()` through to
      the array access. */
  method ExploreComponent(g: WDGraph?, src: int) returns (r: Result<set<int>>)
    requires g != null ==> g.Valid()
    ensures g == null ==> r == Failure(IllegalArgument)
    ensures g != null && (src < 0 || src > g.GetSize()) ==> r == Failure(IllegalArgument)
    ensures g != null && src == g.GetSize() ==> r == Failure(IndexOutOfBounds)
    ensures g != null && 0 <= src < g.GetSize() ==>
              r.Success? && forall v :: v in r.value <==> Reaches(g.Out(), src, v)
  {
    if g == null {
      return Failure(IllegalArgument);
    }
    var n := g.GetSize();
    if src < 0 || src > n {
      return Failure(IllegalArgument);
    }
    if src == n {
      return Failure(IndexOutOfBounds);
    }
    var discovered := new bool[n](_ => false);
    assert Marked(discovered[..]) == {};
    ghost var marks0 := discovered[..];
    var ans := ExploreFrom(g, src, discovered, {}, g.Out());
    ExploredAll(g.Out(), src, marks0, discovered[..]);
    return Success(ans);
  }
}
