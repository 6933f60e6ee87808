/** Disjoint-set forest with path compression and a rank heuristic
    (UnionFind.java). */
module UnionFinds {
  import opened Wrappers

  /** One slot of `elementList`: a rank and a parent index. */
  datatype Element = Element(rank: nat, parent: int)

  /** The parent pointers form a forest: every parent is in range, and a ghost
      `height`, bounded by `bound`, strictly increases from a non-root to its
      parent, so following parents always reaches a root. */
  ghost predicate Forest(es: seq<Element>, height: seq<nat>, bound: nat)
  {
    && |height| == |es|
    && (forall x :: 0 <= x < |es| ==> 0 <= es[x].parent < |es|)
    && (forall x :: 0 <= x < |es| ==> height[x] <= bound)
    && (forall x :: 0 <= x < |es| && es[x].parent != x ==> height[x] < height[es[x].parent])
  }

  /** The root reached from `x` by following parent pointers. */
  ghost function RootOf(es: seq<Element>, height: seq<nat>, bound: nat, x: int): (r: int)
    requires Forest(es, height, bound) && 0 <= x < |es|
    ensures 0 <= r < |es| && es[r].parent == r
    ensures r == x || height[x] < height[r]
    decreases bound - height[x]
  {
    if es[x].parent == x then x else RootOf(es, height, bound, es[x].parent)
  }

  /** `es` with the parent of `y` redirected to `y`'s root (one compression step). */
  ghost function Compress(es: seq<Element>, height: seq<nat>, bound: nat, y: int): seq<Element>
    requires Forest(es, height, bound) && 0 <= y < |es|
  {
    es[y := es[y].(parent := RootOf(es, height, bound, y))]
  }

  lemma CompressIsForest(es: seq<Element>, height: seq<nat>, bound: nat, y: int)
    requires Forest(es, height, bound) && 0 <= y < |es|
    ensures Forest(Compress(es, height, bound, y), height, bound)
  {
  }

  /** Redirecting a node to its own root changes no element's root. */
  lemma {:induction false} CompressKeepsRoots(es: seq<Element>, height: seq<nat>, bound: nat, y: int, x: int)
    requires Forest(es, height, bound) && 0 <= y < |es| && 0 <= x < |es|
    ensures Forest(Compress(es, height, bound, y), height, bound)
    ensures RootOf(Compress(es, height, bound, y), height, bound, x) == RootOf(es, height, bound, x)
    decreases bound - height[x]
  {
    CompressIsForest(es, height, bound, y);
    var es' := Compress(es, height, bound, y);
    var r := RootOf(es, height, bound, y);
    if x == y {
      if r != y {
        assert es'[r] == es[r];
        assert RootOf(es', height, bound, r) == r;
      }
    } else if es[x].parent != x {
      CompressKeepsRoots(es, height, bound, y, es[x].parent);
    }
  }

  /** Hanging root `r1` under root `r2`, with `r2`'s ghost height raised above
      every other, sends every element of `r1`'s tree to `r2` and no other. */
  lemma {:induction false} LinkRoots(es: seq<Element>, height: seq<nat>, bound: nat,
                                     es': seq<Element>, r1: int, r2: int, x: int)
    requires Forest(es, height, bound)
    requires 0 <= r1 < |es| && 0 <= r2 < |es| && r1 != r2
    requires es[r1].parent == r1 && es[r2].parent == r2
    requires |es'| == |es| && es'[r1].parent == r2
    requires forall y :: 0 <= y < |es| && y != r1 ==> es'[y].parent == es[y].parent
    requires 0 <= x < |es|
    ensures Forest(es', height[r2 := bound + 1], bound + 1)
    ensures RootOf(es', height[r2 := bound + 1], bound + 1, x)
         == if RootOf(es, height, bound, x) == r1 then r2 else RootOf(es, height, bound, x)
    decreases bound - height[x]
  {
    var h' := height[r2 := bound + 1];
    assert Forest(es', h', bound + 1);
    if x == r1 {
      assert RootOf(es', h', bound + 1, r2) == r2;
    } else if es[x].parent != x {
      LinkRoots(es, height, bound, es', r1, r2, es[x].parent);
    }
  }

  /** The Java class. `elements` is `elementList`; `height` and `bound` are
      ghost bookkeeping that only prove termination of `find`. */
  class UnionFind {
    var numElements: int
    var elements: seq<Element>
    ghost var height: seq<nat>
    ghost var bound: nat

    ghost predicate Valid()
      reads this
    {
      && numElements == |elements|
      && Forest(elements, height, bound)
    }

    /** The representative `find` would return for `x`, without compressing. */
    ghost function Root(x: int): int
      reads this
      requires Valid() && 0 <= x < numElements
    {
      RootOf(elements, height, bound, x)
    }

    /** The loop of the constructor, for a count already checked non-negative. */
    constructor Init(n: nat)
      ensures Valid() && numElements == n
      ensures forall i :: 0 <= i < n ==> elements[i] == Element(0, i)
    {
      numElements := n;
      var es: seq<Element> := [];
      var i := 0;
      while i < n
        invariant 0 <= i <= n && |es| == i
        invariant forall j :: 0 <= j < i ==> es[j] == Element(0, j)
      {
        es := es + [Element(0, i)];
        i := i + 1;
      }
      elements := es;
      height := seq(n, _ => 0);
      bound := 0;
    }

    /** `new UnionFind(n)`: a negative count is rejected, otherwise every
        element starts as its own root with rank 0. */
    static method New(n: int) returns (r: Result<UnionFind>)
      ensures n < 0 <==> r.Failure?
      ensures r.Failure? ==> r.error == IllegalArgument
      ensures r.Success? ==> fresh(r.value) && r.value.Valid() && r.value.numElements == n
      ensures r.Success? ==> forall i :: 0 <= i < n ==> r.value.elements[i] == Element(0, i)
    {
      if n < 0 {
        return Failure(IllegalArgument);
      }
      var uf := new UnionFind.Init(n);
      return Success(uf);
    }

    /** `find(u)`: the root of `u`'s tree; every parent pointer on the way is
        redirected to that root. No element's root and no rank changes. */
    method Find(u: int) returns (r: Result<int>)
      requires Valid()
      modifies this
      ensures Valid() && numElements == old(numElements)
      ensures height == old(height) && bound == old(bound)
      ensures !(0 <= u < numElements) ==> r == Failure(IllegalArgument) && elements == old(elements)
      ensures 0 <= u < numElements ==>
                r == Success(old(Root(u))) && elements[u].parent == r.value && elements[r.value].parent == r.value
      ensures forall x :: 0 <= x < numElements ==> Root(x) == old(Root(x))
      ensures forall x :: 0 <= x < numElements ==>
                && elements[x].rank == old(elements[x].rank)
                && (elements[x].parent == old(elements[x].parent) || elements[x].parent == old(Root(x)))
      decreases if 0 <= u < |height| then bound - height[u] else 0
    {
      if u < 0 || u >= numElements {
        return Failure(IllegalArgument);
      }
      if u != elements[u].parent {
        ghost var es0 := elements;
        var p := Find(elements[u].parent);
        assert RootOf(elements, height, bound, u) == RootOf(es0, height, bound, u);
        ghost var es1 := elements;
        elements := elements[u := elements[u].(parent := p.value)];
        assert elements == Compress(es1, height, bound, u);
        forall x | 0 <= x < numElements
          ensures RootOf(elements, height, bound, x) == RootOf(es1, height, bound, x)
        {
          CompressKeepsRoots(es1, height, bound, u, x);
        }
      }
      return Success(elements[u].parent);
    }

    /** Lines 63-65 (and 68-70 with the roles swapped): hang root `child`
        under root `parent`, and raise `parent`'s rank when the two ranks were
        equal. */
    method Link(child: int, parent: int)
      requires Valid() && 0 <= child < numElements && 0 <= parent < numElements && child != parent
      requires elements[child].parent == child && elements[parent].parent == parent
      modifies this
      ensures Valid() && numElements == old(numElements)
      ensures forall x :: 0 <= x < numElements ==>
                Root(x) == if old(Root(x)) == child then parent else old(Root(x))
      ensures forall x :: 0 <= x < numElements && x != parent ==> elements[x].rank == old(elements[x].rank)
      ensures elements[parent].rank ==
                old(elements[parent].rank) + (if old(elements[child].rank == elements[parent].rank) then 1 else 0)
    {
      ghost var es0, h0, b0 := elements, height, bound;
      var es := elements[child := elements[child].(parent := parent)];
      if es[child].rank == es[parent].rank {
        es := es[parent := es[parent].(rank := es[parent].rank + 1)];
      }
      LinkRoots(es0, h0, b0, es, child, parent, child);
      forall x | 0 <= x < numElements
        ensures RootOf(es, h0[parent := b0 + 1], b0 + 1, x)
             == if RootOf(es0, h0, b0, x) == child then parent else RootOf(es0, h0, b0, x)
      {
        LinkRoots(es0, h0, b0, es, child, parent, x);
      }
      elements, height, bound := es, h0[parent := b0 + 1], b0 + 1;
    }

    /** `union(u, v)`: after it `u` and `v` share a root; the two old trees
        are merged by re-parenting exactly one root, and no other element
        changes set. Which root survives is decided by the ranks of `u` and
        `v` themselves, not of their roots. */
    method Union(u: int, v: int) returns (r: Outcome)
      requires Valid()
      modifies this
      ensures Valid() && numElements == old(numElements)
      ensures !(0 <= u < numElements && 0 <= v < numElements) <==> r == Fail(IllegalArgument)
      ensures 0 <= u < numElements && 0 <= v < numElements ==> r.Pass?
      ensures r.Fail? ==> elements == old(elements)
      ensures r.Pass? ==> Root(u) == Root(v)
      ensures r.Pass? ==>
                var ru, rv := old(Root(u)), old(Root(v));
                var winner := if old(elements[u].rank < elements[v].rank) then rv else ru;
                && (forall x :: 0 <= x < numElements ==>
                      Root(x) == if old(Root(x)) == ru || old(Root(x)) == rv then winner else old(Root(x)))
                && (forall x :: 0 <= x < numElements && x != winner ==> elements[x].rank == old(elements[x].rank))
                && elements[winner].rank ==
                     old(elements[winner].rank) + (if ru != rv && old(elements[ru].rank == elements[rv].rank) then 1 else 0)
    {
      if u < 0 || u >= numElements {
        return Fail(IllegalArgument);
      }
      if v < 0 || v >= numElements {
        return Fail(IllegalArgument);
      }
      var ur := Find(u);
      var vr := Find(v);
      var uRoot, vRoot := ur.value, vr.value;
      if uRoot == vRoot {
        return Pass;
      }
      if elements[u].rank < elements[v].rank {
        Link(uRoot, vRoot);
      } else {
        Link(vRoot, uRoot);
      }
      return Pass;
    }
  }
}
