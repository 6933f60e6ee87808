/** Strongly connected components (ConnectedComponents.java) by Kosaraju's
    algorithm: list the vertices in reverse order of DFS finishing time,
    then take them in that order and give every one not yet discovered the
    undiscovered vertices that reach it, found by searching the transposed
    graph from it. */
module StrongComponents {
  import opened Wrappers
  import opened WDGraphs
  import opened DepthFirst

  /** The strongly connected component of `x`: the vertices `x` reaches and
      that reach `x`. */
  ghost function Component(adj: seq<seq<Edge>>, x: int): set<int>
  {
    set v | 0 <= v < |adj| && Strong(adj, x, v)
  }

  /** A vertex lies in its own component. */
  lemma InOwnComponent(adj: seq<seq<Edge>>, x: int)
    requires 0 <= x < |adj|
    ensures x in Component(adj, x)
  {
    ReachesSelf(adj, x);
  }

  /** Two components are equal or disjoint, so the components of the
      vertices partition them. */
  lemma ComponentsPartition(adj: seq<seq<Edge>>, u: int, v: int)
    ensures Component(adj, u) == Component(adj, v) || Component(adj, u) * Component(adj, v) == {}
  {
    if w :| w in Component(adj, u) * Component(adj, v) {
      SameComponent(adj, u, w);
      SameComponent(adj, v, w);
    }
  }

  /** Every member of a component has that component. */
  lemma SameComponent(adj: seq<seq<Edge>>, x: int, v: int)
    requires v in Component(adj, x)
    ensures Component(adj, v) == Component(adj, x)
  {
    forall w | w in Component(adj, x) ensures w in Component(adj, v) {
      StrongTrans(adj, v, x, w);
    }
    forall w | w in Component(adj, v) ensures w in Component(adj, x) {
      StrongTrans(adj, x, v, w);
    }
  }

  /** Nothing outside the graph is reached from inside it. */
  lemma ReachesInGraph(adj: seq<seq<Edge>>, x: int, v: int)
    requires InRange(adj) && 0 <= x < |adj| && Reaches(adj, x, v)
    ensures 0 <= v < |adj|
  {
    var all := seq(|adj|, _ => true);
    var S := Marked(all);
    forall u, z | u in S && Arc(adj, u, z) ensures z in S {
      ArcInRange(adj, u, z);
      assert all[z];
    }
    ClosedReaches(adj, S, x, v);
  }

  /** `stronglyConnectedComponentsHelper(discovered, x, explored, xConComp)`:
      every vertex of `explored` not yet discovered is marked and joins the
      component. */
  method CollectUndiscovered(discovered: array<bool>, explored: set<int>, comp: set<int>) returns (comp': set<int>)
    requires forall k :: k in explored ==> 0 <= k < discovered.Length
    modifies discovered
    ensures forall k :: k in comp' <==> k in comp || (k in explored && !old(discovered[k]))
    ensures forall k :: 0 <= k < discovered.Length ==> discovered[k] == (old(discovered[k]) || k in explored)
  {
    comp' := comp;
    ghost var marks := discovered[..];
    var rest := explored;
    while rest != {}
      invariant rest <= explored
      invariant forall k :: k in comp' <==> k in comp || (k in explored && k !in rest && !marks[k])
      invariant forall k :: 0 <= k < discovered.Length ==> discovered[k] == (marks[k] || (k in explored && k !in rest))
      decreases |rest|
    {
      assert exists y :: y in rest by {
        // a set with no member is empty
        assert (forall y :: y !in rest) ==> rest == {};
      }
      var k :| k in rest;
      if !discovered[k] {
        discovered[k] := true;
        comp' := comp' + {k};
      }
      rest := rest - {k};
    }
  }

  /** The state of the loop of `stronglyConnectedComponents` after the first
      `t` vertices of the order `r` were taken: they are discovered, the
      discovered vertices are whole components, and `ans` holds exactly
      their components. */
  ghost predicate Collected(adj: seq<seq<Edge>>, r: seq<int>, t: int, marks: seq<bool>, ans: set<set<int>>)
  {
    && 0 <= t <= |r| && |marks| == |adj|
    && (forall i :: 0 <= i < |r| ==> 0 <= r[i] < |adj|)
    && (forall v :: 0 <= v < |adj| ==> v in r)
    && (forall i :: 0 <= i < t ==> marks[r[i]])
    && (forall u, v :: 0 <= u < |adj| && 0 <= v < |adj| && marks[u] && Strong(adj, u, v) ==> marks[v])
    && (forall C :: C in ans <==> exists v :: 0 <= v < |adj| && marks[v] && C == Component(adj, v))
  }

  /** The vertices that reach `r[t]` and are not yet discovered make up its
      component: a vertex outside it that reaches it would have a vertex of
      its own component listed earlier, and so be discovered already. */
  lemma NewComponent(adj: seq<seq<Edge>>, r: seq<int>, t: int, marks: seq<bool>, ans: set<set<int>>, explored: set<int>)
    requires Collected(adj, r, t, marks, ans) && t < |r| && ComponentsFirst(adj, r)
    requires !marks[r[t]]
    requires forall v :: v in explored <==> Reaches(adj, v, r[t])
    requires forall v :: v in explored ==> 0 <= v < |adj|
    ensures forall v :: v in explored && !marks[v] <==> v in Component(adj, r[t])
  {
    var x := r[t];
    forall v | v in explored && !marks[v] ensures Reaches(adj, x, v) {
      if !Reaches(adj, x, v) {
        assert v in r;
        var a :| 0 <= a < |r| && r[a] == v;
        assert OneWay(adj, r[a], r[t]);
        assert false;
      }
    }
    forall v | v in Component(adj, x) ensures v in explored && !marks[v] {
      if marks[v] {
        assert Strong(adj, v, x);
      }
    }
  }

  /** Taking `r[t]` when it is undiscovered adds its component, and keeps
      the loop's state. */
  lemma TakeUndiscovered(adj: seq<seq<Edge>>, r: seq<int>, t: int, marks: seq<bool>, ans: set<set<int>>, marks': seq<bool>)
    requires Collected(adj, r, t, marks, ans) && t < |r| && !marks[r[t]]
    requires |marks'| == |marks| && forall v :: 0 <= v < |marks| ==> marks'[v] == (marks[v] || v in Component(adj, r[t]))
    ensures Collected(adj, r, t + 1, marks', ans + {Component(adj, r[t])})
  {
    var x := r[t];
    InOwnComponent(adj, x);
    forall u, v | 0 <= u < |adj| && 0 <= v < |adj| && marks'[u] && Strong(adj, u, v) ensures marks'[v] {
      if !marks[u] {
        StrongTrans(adj, x, u, v);
      }
    }
    forall C | C in ans + {Component(adj, x)}
      ensures exists v :: 0 <= v < |adj| && marks'[v] && C == Component(adj, v)
    {
      if C !in ans {
        assert marks'[x];
      }
    }
    forall v | 0 <= v < |adj| && marks'[v] ensures Component(adj, v) in ans + {Component(adj, x)} {
      if !marks[v] {
        SameComponent(adj, x, v);
      }
    }
  }

  /** Once every vertex was taken, `ans` holds the component of every
      vertex and nothing else. */
  lemma AllTaken(adj: seq<seq<Edge>>, r: seq<int>, marks: seq<bool>, ans: set<set<int>>)
    requires Collected(adj, r, |r|, marks, ans)
    ensures forall C :: C in ans <==> exists v :: 0 <= v < |adj| && C == Component(adj, v)
  {
    forall v | 0 <= v < |adj| ensures marks[v] {
      assert v in r;
      var i :| 0 <= i < |r| && r[i] == v;
    }
  }

  /** Before the loop nothing is discovered and no component collected. */
  lemma NoneTaken(adj: seq<seq<Edge>>, r: seq<int>, marks: seq<bool>)
    requires forall v :: v in r <==> 0 <= v < |adj|
    requires |marks| == |adj| && forall v :: 0 <= v < |marks| ==> !marks[v]
    ensures Collected(adj, r, 0, marks, {})
  {
    forall i | 0 <= i < |r| ensures 0 <= r[i] < |adj| {
      assert r[i] in r;
    }
  }

  /** `stronglyConnectedComponents(graph)`. The first pass is
      `dfsReverseFinishingTime(graph, 0)`, so an empty graph fails at the
      array access for vertex 0, a transposed view fails when the search
      sorts its missing out-lists, and the out-lists of `graph` are left
      sorted. The result is the set of the components of all vertices. */
  method StronglyConnectedComponents(g: WDGraph?) returns (r: Result<set<set<int>>>)
    requires g != null ==> g.Valid()
    modifies g
    ensures g == null ==> r == Failure(IllegalArgument)
    ensures g != null ==> g.Valid() && g.inLists == old(g.inLists) && g.numVert == old(g.numVert)
    ensures g != null && g.GetSize() == 0 ==> r == Failure(IndexOutOfBounds)
    ensures g != null && g.base != null && g.GetSize() > 0 ==> r == Failure(NullPointer)
    ensures g != null && g.base == null && g.GetSize() > 0 ==>
              && r.Success?
              && (forall C :: C in r.value <==> exists v :: 0 <= v < g.GetSize() && C == Component(old(g.outLists), v))
              && (forall u :: 0 <= u < |g.outLists| ==>
                    SortedByNeighbor(g.outLists[u]) && multiset(g.outLists[u]) == multiset(old(g.outLists[u])))
  {
    if g == null {
      return Failure(IllegalArgument);
    }
    ghost var adj := g.outLists;
    var order := ReverseFinishingTime(g, 0);
    if order.Failure? {
      return Failure(order.error);
    }
    var gTrans := new WDGraph.Transpose(g);
    var n := g.GetSize();
    var discovered := new bool[n](_ => false);
    ghost var rs := order.value;
    NoneTaken(adj, rs, discovered[..]);
    var ans := CollectAll(gTrans, discovered, order.value, adj);
    AllTaken(adj, rs, discovered[..], ans);
    return Success(ans);
  }

  /** The loop of `stronglyConnectedComponents`: take the vertices of the
      order `rs` from the front, one by one. */
  method CollectAll(gTrans: WDGraph, discovered: array<bool>, rs: seq<int>, ghost adj: seq<seq<Edge>>)
      returns (ans: set<set<int>>)
    requires gTrans.Valid() && Mirrored(adj, gTrans.Out()) && discovered.Length == |adj|
    requires Collected(adj, rs, 0, discovered[..], {}) && ComponentsFirst(adj, rs)
    modifies discovered
    ensures Collected(adj, rs, |rs|, discovered[..], ans)
  {
    ans := {};
    var rest := rs;
    ghost var t := 0;
    while |rest| != 0
      invariant Collected(adj, rs, t, discovered[..], ans) && rest == rs[t..]
      decreases |rest|
    {
      var x := rest[0];
      rest := rest[1..];
      ans := TakeNext(gTrans, discovered, ans, x, adj, rs, t);
      t := t + 1;
    }
  }

  /** One turn of the loop of `stronglyConnectedComponents` on `x`, the
      next vertex of the order `rs`: when `x` is undiscovered it is marked,
      the transposed view is searched from it, and the helper collects its
      component. */
  method TakeNext(gTrans: WDGraph, discovered: array<bool>, ans: set<set<int>>, x: int,
                  ghost adj: seq<seq<Edge>>, ghost rs: seq<int>, ghost t: int) returns (ans': set<set<int>>)
    requires gTrans.Valid() && Mirrored(adj, gTrans.Out()) && discovered.Length == |adj|
    requires Collected(adj, rs, t, discovered[..], ans) && t < |rs| && rs[t] == x && ComponentsFirst(adj, rs)
    modifies discovered
    ensures Collected(adj, rs, t + 1, discovered[..], ans')
  {
    ans' := ans;
    if !discovered[x] {
      ghost var marks := discovered[..];
      discovered[x] := true;
      var explored := ExploreComponent(gTrans, x);
      ExploredReachX(adj, gTrans.Out(), x, explored.value);
      NewComponent(adj, rs, t, marks, ans, explored.value);
      var comp := CollectUndiscovered(discovered, explored.value, {x});
      assert comp == Component(adj, x) by {
        InOwnComponent(adj, x);
      }
      TakeUndiscovered(adj, rs, t, marks, ans, discovered[..]);
      ans' := ans + {comp};
    }
  }

  /** What the search on the transposed view finds from `x`: the vertices
      that reach `x` in the graph, all of them vertices of the graph. */
  lemma ExploredReachX(adj: seq<seq<Edge>>, inn: seq<seq<Edge>>, x: int, explored: set<int>)
    requires Mirrored(adj, inn) && 0 <= x < |adj|
    requires forall v :: v in explored <==> Reaches(inn, x, v)
    ensures forall v :: v in explored <==> Reaches(adj, v, x)
    ensures forall v :: v in explored ==> 0 <= v < |adj|
  {
    forall v ensures Reaches(inn, x, v) <==> Reaches(adj, v, x) {
      TransposeReaches(adj, inn, x, v);
    }
    forall v | v in explored ensures 0 <= v < |adj| {
      ReachesInGraph(inn, x, v);
    }
  }
}
