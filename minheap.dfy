/** Array-backed binary min-heap of (key, value) entries with a value-to-index
    map that supports `decreaseKey` (BinaryMinHeap.java). Keys are integers;
    the value-to-index map, the library's own `HashMap` in BinaryMinHeap.java, is
    a Dafny `map`. */
module MinHeaps {
  import opened Wrappers

  datatype Entry<V> = Entry(key: int, value: V)

  /** `(i - 1) / 2` with Java's truncating division, which gives 0 at the root. */
  function Parent(i: int): (p: int)
    ensures i <= 0 ==> p == 0
    ensures i > 0 ==> 0 <= p < i && (i == 2 * p + 1 || i == 2 * p + 2)
  {
    if i <= 0 then 0 else (i - 1) / 2
  }

  /** Position `j` lies in the subtree rooted at position `i`. */
  ghost predicate InSubtree(i: int, j: int)
    decreases j
  {
    i == j || (0 <= i < j && InSubtree(i, Parent(j)))
  }

  lemma {:induction false} UnderRoot(j: int)
    requires 0 <= j
    ensures InSubtree(0, j)
    decreases j
  {
    if j > 0 {
      UnderRoot(Parent(j));
    }
  }

  /** Two subtrees containing the same position are nested. */
  lemma {:induction false} SubtreesNest(a: int, b: int, j: int)
    requires 0 <= a <= b && InSubtree(a, j) && InSubtree(b, j)
    ensures InSubtree(a, b)
    decreases j
  {
    if j != b {
      SubtreesNest(a, b, Parent(j));
    }
  }

  /** The subtrees of the two children of `i` are disjoint. */
  lemma ChildrenDisjoint(i: int, j: int)
    requires 0 <= i
    ensures InSubtree(2 * i + 1, j) ==> !InSubtree(2 * i + 2, j)
  {
    if InSubtree(2 * i + 1, j) && InSubtree(2 * i + 2, j) {
      SubtreesNest(2 * i + 1, 2 * i + 2, j);
    }
  }

  /** A child's subtree lies inside its parent's. */
  lemma {:induction false} SubtreeOfChild(i: int, c: int, j: int)
    requires 0 <= i && (c == 2 * i + 1 || c == 2 * i + 2) && InSubtree(c, j)
    ensures InSubtree(i, j)
    decreases j
  {
    if j != c {
      SubtreeOfChild(i, c, Parent(j));
    }
  }

  /** Every position below `i` lies in the subtree of one of its children. */
  lemma {:induction false} SubtreeSplit(i: int, j: int)
    requires 0 <= i && InSubtree(i, j) && j != i
    ensures InSubtree(2 * i + 1, j) || InSubtree(2 * i + 2, j)
    decreases j
  {
    if Parent(j) != i {
      SubtreeSplit(i, Parent(j));
    }
  }

  /** Every parent-child pair is ordered: the heap property. */
  ghost predicate HeapOrdered<V>(list: seq<Entry<V>>)
  {
    forall c :: 0 < c < |list| ==> list[Parent(c)].key <= list[c].key
  }

  /** Heap order everywhere except between `i` and its parent, with `i`'s
      parent no larger than `i`'s children: the sift-up invariant. */
  ghost predicate HeapExcept<V>(list: seq<Entry<V>>, i: int)
  {
    && (forall c :: 0 < c < |list| && c != i ==> list[Parent(c)].key <= list[c].key)
    && (0 < i < |list| ==> forall c :: 0 < c < |list| && Parent(c) == i ==> list[Parent(i)].key <= list[c].key)
  }

  /** Heap order for the pairs strictly below `i`: the sift-down precondition. */
  ghost predicate SubHeapBelow<V>(list: seq<Entry<V>>, i: int)
  {
    forall c :: 0 < c < |list| && InSubtree(i, Parent(c)) && Parent(c) != i ==> list[Parent(c)].key <= list[c].key
  }

  /** Heap order for every pair inside the subtree of `i`. */
  ghost predicate SubHeap<V>(list: seq<Entry<V>>, i: int)
  {
    forall c :: 0 < c < |list| && InSubtree(i, Parent(c)) ==> list[Parent(c)].key <= list[c].key
  }

  /** Every key in the subtree of `i` is at least `lo`. */
  ghost predicate BoundedBelow<V>(list: seq<Entry<V>>, i: int, lo: int)
  {
    forall j :: 0 <= j < |list| && InSubtree(i, j) ==> lo <= list[j].key
  }

  /** A lower bound of the root and of its children bounds a subtree ordered
      below its root. */
  lemma {:induction false} BoundFromChildren<V>(list: seq<Entry<V>>, r: int, lo: int, j: int)
    requires 0 <= r < |list| && SubHeapBelow(list, r) && lo <= list[r].key
    requires forall c :: 0 < c < |list| && Parent(c) == r ==> lo <= list[c].key
    requires 0 <= j < |list| && InSubtree(r, j)
    ensures lo <= list[j].key
    decreases j
  {
    if j != r && Parent(j) != r {
      BoundFromChildren(list, r, lo, Parent(j));
    }
  }

  /** The root of a heap-ordered subtree holds its least key. */
  lemma SubtreeRootIsMin<V>(list: seq<Entry<V>>, r: int)
    requires 0 <= r < |list| && SubHeap(list, r)
    ensures BoundedBelow(list, r, list[r].key)
  {
    forall j | 0 <= j < |list| && InSubtree(r, j) ensures list[r].key <= list[j].key {
      BoundFromChildren(list, r, list[r].key, j);
    }
  }

  /** A heap-ordered list has its least key at position 0. */
  lemma RootIsMin<V>(list: seq<Entry<V>>)
    requires |list| > 0 && HeapOrdered(list)
    ensures forall j :: 0 <= j < |list| ==> list[0].key <= list[j].key
  {
    SubtreeRootIsMin(list, 0);
    forall j | 0 <= j < |list| ensures list[0].key <= list[j].key {
      UnderRoot(j);
    }
  }

  /** `map[v] == i` exactly when `list[i]` holds `v`. */
  ghost predicate IndexMapped<V>(list: seq<Entry<V>>, index: map<V, int>)
  {
    && (forall j :: 0 <= j < |list| ==> list[j].value in index && index[list[j].value] == j)
    && (forall v :: v in index ==> 0 <= index[v] < |list| && list[index[v]].value == v)
  }

  /** The heap's contents: each value with its key. */
  ghost function Contents<V>(list: seq<Entry<V>>, index: map<V, int>): map<V, int>
  {
    map v | v in index && 0 <= index[v] < |list| :: list[index[v]].key
  }

  lemma ContentsKeys<V>(list: seq<Entry<V>>, index: map<V, int>)
    requires IndexMapped(list, index)
    ensures Contents(list, index).Keys == index.Keys
    ensures forall j :: 0 <= j < |list| ==> list[j].value in Contents(list, index) && Contents(list, index)[list[j].value] == list[j].key
  {
  }

  /** The index has one key per entry of the list. */
  lemma {:induction false} IndexCount<V>(list: seq<Entry<V>>, index: map<V, int>)
    requires IndexMapped(list, index)
    ensures |index.Keys| == |list|
    decreases |list|
  {
    if |list| == 0 {
      assert index.Keys == {};
    } else {
      var last := list[|list| - 1].value;
      var list' := list[..|list| - 1];
      var index' := map v | v in index && v != last :: index[v];
      assert IndexMapped(list', index') by {
        forall j | 0 <= j < |list'| ensures list'[j].value in index' && index'[list'[j].value] == j {
          assert list'[j] == list[j];
          assert index[list[j].value] == j;
        }
        forall v | v in index' ensures 0 <= index'[v] < |list'| && list'[index'[v]].value == v {
          assert index[v] != |list| - 1;
        }
      }
      IndexCount(list', index');
      assert index'.Keys == index.Keys - {last};
    }
  }

  class BinaryMinHeap<V(==)> {
    /** `map` in the Java class. */
    var index: map<V, int>
    var list: seq<Entry<V>>

    ghost predicate Valid()
      reads this
    {
      IndexMapped(list, index) && HeapOrdered(list)
    }

    ghost function Elements(): map<V, int>
      reads this
    {
      Contents(list, index)
    }

    constructor ()
      ensures Valid() && Elements() == map[] && list == []
    {
      index := map[];
      list := [];
    }

    /** `size()`: the number of values held. */
    function Size(): (n: int)
      reads this
      requires Valid()
      ensures n >= 0 && (n == 0 <==> Elements() == map[])
      ensures n == |Elements()|
    {
      ContentsKeys(list, index);
      IndexCount(list, index);
      assert |list| > 0 ==> list[0].value in Elements();
      |list|
    }

    /** `isEmpty()`. */
    function IsEmpty(): (b: bool)
      reads this
      requires Valid()
      ensures b <==> Elements() == map[]
    {
      Size() == 0
    }

    /** `containsValue(value)`: the value is in the heap, with some key. */
    function ContainsValue(value: V): (b: bool)
      reads this
      requires Valid()
      ensures b <==> value in Elements()
      ensures b <==> exists j :: 0 <= j < |list| && list[j].value == value
    {
      ContentsKeys(list, index);
      value in index
    }

    /** The three assignments of a swap in `addHelper` / `extractMinHelper`:
        the entries at `a` and `b` trade places and their indices follow. */
    method Swap(a: int, b: int)
      requires IndexMapped(list, index) && 0 <= a < |list| && 0 <= b < |list| && a != b
      modifies this
      ensures list == old(list)[a := old(list)[b]][b := old(list)[a]]
      ensures IndexMapped(list, index) && Contents(list, index) == old(Contents(list, index))
    {
      ghost var c0 := Contents(list, index);
      var temp := list[b];
      var xValue := list[a].value;
      var tempValue := list[b].value;
      list := list[b := list[a]][a := temp];
      index := index[xValue := b][tempValue := a];
      assert Contents(list, index).Keys == c0.Keys;
    }

    /** `addHelper(x, i)`: while the entry at `i` is smaller than its parent,
        swap them and move up. */
    method AddHelper(i0: int)
      requires IndexMapped(list, index) && 0 <= i0 < |list| && HeapExcept(list, i0)
      modifies this
      ensures IndexMapped(list, index) && HeapOrdered(list)
      ensures Contents(list, index) == old(Contents(list, index)) && |list| == old(|list|)
    {
      if |list| == 1 {
        return;
      }
      var i := i0;
      while Parent(i) >= 0 && list[i].key < list[Parent(i)].key
        invariant IndexMapped(list, index) && 0 <= i < |list| && HeapExcept(list, i)
        invariant Contents(list, index) == old(Contents(list, index)) && |list| == old(|list|)
        decreases i
      {
        ghost var l0 := list;
        var p := Parent(i);
        Swap(i, p);
        forall c | 0 < c < |list| && Parent(c) == p
          ensures 0 < p ==> list[Parent(p)].key <= list[c].key
        {
          if 0 < p && c != i {
            assert l0[Parent(p)].key <= l0[p].key;
          }
        }
        i := p;
      }
    }

    /** `add(key, value)`: a null key or a value already present is refused
        before any change; otherwise the entry is appended and sifted up. */
    method Add(key: Option<int>, value: V) returns (r: Outcome)
      requires Valid()
      modifies this
      ensures Valid()
      ensures key.None? ==> r == Fail(IllegalArgument)
      ensures key.Some? && value in old(Elements()) ==> r == Fail(IllegalArgument)
      ensures r.Pass? <==> key.Some? && value !in old(Elements())
      ensures r.Fail? ==> list == old(list) && index == old(index)
      ensures r.Pass? ==> Elements() == old(Elements())[value := key.value] && |list| == old(|list|) + 1
    {
      if key.None? {
        return Fail(IllegalArgument);
      }
      if ContainsValue(value) {
        return Fail(IllegalArgument);
      }
      ghost var c0 := Elements();
      var x := Entry(key.value, value);
      index := index[value := |list|];
      list := list + [x];
      assert Contents(list, index) == c0[value := key.value];
      AddHelper(|list| - 1);
      return Pass;
    }

    /** `decreaseKey(value, newKey)`: an absent value, a null key or a larger
        key is refused before any change; otherwise the key is replaced and
        the entry sifted up. */
    method DecreaseKey(value: V, newKey: Option<int>) returns (r: Outcome)
      requires Valid()
      modifies this
      ensures Valid()
      ensures value !in old(Elements()) ==> r == Fail(NoSuchElement)
      ensures value in old(Elements()) && newKey.None? ==> r == Fail(IllegalArgument)
      ensures value in old(Elements()) && newKey.Some? && newKey.value > old(Elements())[value] ==> r == Fail(IllegalArgument)
      ensures r.Pass? <==> value in old(Elements()) && newKey.Some? && newKey.value <= old(Elements())[value]
      ensures r.Fail? ==> list == old(list) && index == old(index)
      ensures r.Pass? ==> Elements() == old(Elements())[value := newKey.value] && |list| == old(|list|)
    {
      if !ContainsValue(value) {
        return Fail(NoSuchElement);
      }
      if newKey.None? {
        return Fail(IllegalArgument);
      }
      var i := index[value];
      if newKey.value > list[i].key {
        return Fail(IllegalArgument);
      }
      ghost var c0 := Elements();
      list := list[i := list[i].(key := newKey.value)];
      assert Contents(list, index) == c0[value := newKey.value];
      AddHelper(i);
      return Pass;
    }

    /** `peek()`: the value of a least key; fails on an empty heap. */
    function Peek(): (r: Result<V>)
      reads this
      requires Valid()
      ensures Elements() == map[] <==> r == Failure(NoSuchElement)
      ensures r.Success? ==> r.value in Elements() && forall v :: v in Elements() ==> Elements()[r.value] <= Elements()[v]
    {
      ContentsKeys(list, index);
      if |list| == 0 then Failure(NoSuchElement)
      else
        RootIsMin(list);
        Success(list[0].value)
    }

    /** `extractMinHelper(i)`: sift the entry at `i` down its subtree. With
        two children it first swaps with the left child if that is smaller
        and recurses there, then compares with the right child in the same
        way. */
    method ExtractMinHelper(i: int, ghost lo: int)
      requires IndexMapped(list, index) && 0 <= i < |list|
      requires SubHeapBelow(list, i) && BoundedBelow(list, i, lo)
      modifies this
      ensures IndexMapped(list, index) && |list| == old(|list|)
      ensures Contents(list, index) == old(Contents(list, index))
      ensures SubHeap(list, i) && BoundedBelow(list, i, lo)
      ensures forall j :: 0 <= j < |list| && !InSubtree(i, j) ==> list[j] == old(list[j])
      decreases |list| - i
    {
      var l, r := 2 * i + 1, 2 * i + 2;
      if l > |list| - 1 {
        LeafSubHeap(list, i);
        return;
      } else if l == |list| - 1 {
        if list[l].key < list[i].key {
          ghost var l0 := list;
          Swap(i, l);
          OnlyChildSwap(l0, list, i, lo);
          return;
        }
        OnlyChildSubHeap(list, i);
      } else {
        ghost var l0 := list;
        if list[l].key < list[i].key {
          Swap(i, l);
          ghost var l1 := list;
          PrepareChild(l0, l1, i, l);
          ExtractMinHelper(l, l0[l].key);
          AfterLeft(l0, l1, list, i, lo);
        } else {
          NoLeftSwap(l0, i);
        }
        if list[r].key < list[i].key {
          ghost var l2 := list;
          Swap(i, r);
          ghost var l3 := list;
          PrepareRight(l0, l2, l3, i, lo);
          ExtractMinHelper(r, l2[r].key);
          AfterRight(l0, l2, l3, list, i, lo);
        } else {
          NoRightSwap(l0, list, i, lo);
        }
      }
    }

    /** `extractMin()`: removes and returns a value of least key; the last
        entry refills the root and is sifted down. Fails on an empty heap.
        Every remaining key is at least the extracted one, so repeated
        extraction yields keys in non-decreasing order. */
    method ExtractMin() returns (r: Result<V>)
      requires Valid()
      modifies this
      ensures Valid()
      ensures old(Elements()) == map[] <==> r == Failure(NoSuchElement)
      ensures r.Success? <==> old(Elements()) != map[]
      ensures r.Failure? ==> list == old(list) && index == old(index)
      ensures r.Success? ==> r.value in old(Elements())
      ensures r.Success? ==> forall v :: v in old(Elements()) ==> old(Elements())[r.value] <= old(Elements())[v]
      ensures r.Success? ==> Elements() == old(Elements()) - {r.value} && |list| == old(|list|) - 1
      ensures r.Success? ==> forall v :: v in Elements() ==> old(Elements())[r.value] <= Elements()[v]
    {
      ContentsKeys(list, index);
      if |list| == 0 {
        return Failure(NoSuchElement);
      }
      RootIsMin(list);
      ghost var c0 := Elements();
      ghost var l0, i0 := list, index;
      var ans := list[0].value;
      index := index[list[|list| - 1].value := 0];
      index := index - {ans};
      var temp := list[|list| - 1];
      list := list[..|list| - 1];
      if |list| == 0 {
        assert Elements() == c0 - {ans};
        return Success(ans);
      }
      list := list[0 := temp];
      RefilledRoot(l0, i0, list, index);
      ExtractMinHelper(0, l0[0].key);
      WholeHeap(list, index, l0[0].key);
      return Success(ans);
    }

    /** `values()`: collects the value of every entry. */
    method Values() returns (ans: set<V>)
      requires Valid()
      ensures ans == Elements().Keys
    {
      ContentsKeys(list, index);
      ans := {};
      var i := 0;
      while i < |list|
        invariant 0 <= i <= |list|
        invariant ans == set j | 0 <= j < i :: list[j].value
      {
        ans := ans + {list[i].value};
        i := i + 1;
      }
      forall v | v in index ensures v in ans {
        assert list[index[v]].value == v;
      }
    }
  }

  /** A heap-ordered subtree at the root is the whole heap. */
  lemma WholeHeap<V>(list: seq<Entry<V>>, index: map<V, int>, lo: int)
    requires IndexMapped(list, index) && SubHeap(list, 0) && BoundedBelow(list, 0, lo)
    ensures HeapOrdered(list)
    ensures forall v :: v in Contents(list, index) ==> lo <= Contents(list, index)[v]
  {
    forall c | 0 < c < |list| ensures list[Parent(c)].key <= list[c].key {
      UnderRoot(Parent(c));
    }
    forall v | v in Contents(list, index) ensures lo <= Contents(list, index)[v] {
      UnderRoot(index[v]);
    }
  }

  /** When the left child is not smaller, the left subtree is a heap bounded
      by the key at `i`. */
  lemma NoLeftSwap<V>(list: seq<Entry<V>>, i: int)
    requires 0 <= i && 2 * i + 1 < |list| && SubHeapBelow(list, i)
    requires list[i].key <= list[2 * i + 1].key
    ensures SubHeap(list, 2 * i + 1) && BoundedBelow(list, 2 * i + 1, list[i].key)
  {
    var l := 2 * i + 1;
    forall c | 0 < c < |list| && InSubtree(l, Parent(c)) ensures list[Parent(c)].key <= list[c].key {
      SubtreeOfChild(i, l, Parent(c));
      assert Parent(c) != i;
    }
    forall j | 0 <= j < |list| && InSubtree(l, j) ensures list[i].key <= list[j].key {
      SubtreeRootIsMin(list, l);
    }
  }

  /** A position without children is a heap by itself. */
  lemma LeafSubHeap<V>(list: seq<Entry<V>>, i: int)
    requires 0 <= i < |list| && 2 * i + 1 > |list| - 1 && SubHeapBelow(list, i)
    ensures SubHeap(list, i)
  {
    forall c | 0 < c < |list| ensures !InSubtree(i, Parent(c)) {
      if Parent(c) != i && InSubtree(i, Parent(c)) {
        SubtreeSplit(i, Parent(c));
      }
    }
  }

  /** A position whose only child is a larger leaf is a heap. */
  lemma OnlyChildSubHeap<V>(list: seq<Entry<V>>, i: int)
    requires 0 <= i && 2 * i + 1 == |list| - 1 && SubHeapBelow(list, i)
    requires list[i].key <= list[2 * i + 1].key
    ensures SubHeap(list, i)
  {
  }

  /** Swapping a position with its only child, a smaller leaf, makes a heap
      with the same bound. */
  lemma OnlyChildSwap<V>(l0: seq<Entry<V>>, l1: seq<Entry<V>>, i: int, lo: int)
    requires 0 <= i && 2 * i + 1 == |l0| - 1 && l0[2 * i + 1].key < l0[i].key
    requires BoundedBelow(l0, i, lo)
    requires l1 == l0[i := l0[2 * i + 1]][2 * i + 1 := l0[i]]
    ensures SubHeap(l1, i) && BoundedBelow(l1, i, lo)
    ensures forall j :: 0 <= j < |l1| && !InSubtree(i, j) ==> l1[j] == l0[j]
  {
    var l := 2 * i + 1;
    assert InSubtree(i, l);
    forall j | 0 <= j < |l1| && InSubtree(i, j) ensures lo <= l1[j].key {
      if j != i && j != l {
        SubtreeSplit(i, j);
      }
    }
    forall j | 0 <= j < |l1| && !InSubtree(i, j) ensures l1[j] == l0[j] {
      assert j != l;
    }
  }

  /** After the swap with the smaller left child, that child's subtree meets
      the recursive call's precondition with the old left key as bound. */
  lemma PrepareChild<V>(l0: seq<Entry<V>>, l1: seq<Entry<V>>, i: int, l: int)
    requires 0 <= i && l == 2 * i + 1 && l < |l0| && l0[l].key < l0[i].key
    requires SubHeapBelow(l0, i)
    requires l1 == l0[i := l0[l]][l := l0[i]]
    ensures SubHeapBelow(l1, l) && BoundedBelow(l1, l, l0[l].key)
  {
    forall c | 0 < c < |l1| && InSubtree(l, Parent(c)) && Parent(c) != l
      ensures l1[Parent(c)].key <= l1[c].key
    {
      SubtreeOfChild(i, l, Parent(c));
    }
    forall c | 0 < c < |l1| && Parent(c) == l ensures l0[l].key <= l1[c].key {
      assert InSubtree(i, l);
    }
    forall j | 0 <= j < |l1| && InSubtree(l, j) ensures l0[l].key <= l1[j].key {
      BoundFromChildren(l1, l, l0[l].key, j);
    }
  }

  /** After the recursive call on the left child: the left subtree is a heap
      bounded by the old left key, and nothing else moved. */
  lemma AfterLeft<V>(l0: seq<Entry<V>>, l1: seq<Entry<V>>, l2: seq<Entry<V>>, i: int, lo: int)
    requires 0 <= i && 2 * i + 2 < |l0| && l0[2 * i + 1].key < l0[i].key
    requires SubHeapBelow(l0, i) && BoundedBelow(l0, i, lo)
    requires l1 == l0[i := l0[2 * i + 1]][2 * i + 1 := l0[i]]
    requires |l2| == |l1| && SubHeap(l2, 2 * i + 1) && BoundedBelow(l2, 2 * i + 1, l0[2 * i + 1].key)
    requires forall j :: 0 <= j < |l2| && !InSubtree(2 * i + 1, j) ==> l2[j] == l1[j]
    ensures l2[i] == l0[2 * i + 1] && l2[2 * i + 2] == l0[2 * i + 2]
    ensures l0[2 * i + 1].key <= l2[2 * i + 1].key
    ensures forall j :: 0 <= j < |l2| && !InSubtree(i, j) ==> l2[j] == l0[j]
    ensures forall j :: 0 <= j < |l2| && InSubtree(2 * i + 2, j) ==> l2[j] == l0[j]
  {
    var l, r := 2 * i + 1, 2 * i + 2;
    assert !InSubtree(l, i);
    assert InSubtree(l, l);
    ChildrenDisjoint(i, r);
    assert !InSubtree(l, r);
    forall j | 0 <= j < |l2| && !InSubtree(i, j) ensures l2[j] == l0[j] {
      if InSubtree(l, j) {
        SubtreeOfChild(i, l, j);
      }
      assert j != l;
    }
    forall j | 0 <= j < |l2| && InSubtree(r, j) ensures l2[j] == l0[j] {
      ChildrenDisjoint(i, j);
      assert j != i && j != l;
    }
  }

  /** Before the swap with the smaller right child: that child's subtree,
      untouched so far, meets the recursive call's precondition. */
  lemma PrepareRight<V>(l0: seq<Entry<V>>, l2: seq<Entry<V>>, l3: seq<Entry<V>>, i: int, lo: int)
    requires 0 <= i && 2 * i + 2 < |l0| && |l2| == |l0|
    requires SubHeapBelow(l0, i)
    requires forall j :: 0 <= j < |l2| && InSubtree(2 * i + 2, j) ==> l2[j] == l0[j]
    requires l2[2 * i + 2].key < l2[i].key
    requires l3 == l2[i := l2[2 * i + 2]][2 * i + 2 := l2[i]]
    ensures SubHeapBelow(l3, 2 * i + 2) && BoundedBelow(l3, 2 * i + 2, l2[2 * i + 2].key)
  {
    var r := 2 * i + 2;
    assert InSubtree(r, r) && InSubtree(i, r);
    forall c | 0 < c < |l3| && InSubtree(r, Parent(c)) && Parent(c) != r
      ensures l3[Parent(c)].key <= l3[c].key
    {
      SubtreeOfChild(i, r, Parent(c));
      assert InSubtree(r, c);
    }
    forall c | 0 < c < |l3| && Parent(c) == r ensures l2[r].key <= l3[c].key {
      assert InSubtree(r, c);
    }
    forall j | 0 <= j < |l3| && InSubtree(r, j) ensures l2[r].key <= l3[j].key {
      BoundFromChildren(l3, r, l2[r].key, j);
    }
  }

  /** After the recursive call on the right child the whole subtree of `i`
      is a heap bounded by `lo`. */
  lemma AfterRight<V>(l0: seq<Entry<V>>, l2: seq<Entry<V>>, l3: seq<Entry<V>>, l4: seq<Entry<V>>, i: int, lo: int)
    requires 0 <= i && 2 * i + 2 < |l0| && |l2| == |l0|
    requires SubHeapBelow(l0, i) && BoundedBelow(l0, i, lo)
    requires forall j :: 0 <= j < |l2| && !InSubtree(i, j) ==> l2[j] == l0[j]
    requires forall j :: 0 <= j < |l2| && InSubtree(2 * i + 2, j) ==> l2[j] == l0[j]
    requires l2[i].key <= l0[i].key && (l2[i] == l0[i] || l2[i] == l0[2 * i + 1])
    requires SubHeap(l2, 2 * i + 1) && BoundedBelow(l2, 2 * i + 1, l2[i].key)
    requires l2[2 * i + 2].key < l2[i].key
    requires l3 == l2[i := l2[2 * i + 2]][2 * i + 2 := l2[i]]
    requires |l4| == |l3| && SubHeap(l4, 2 * i + 2) && BoundedBelow(l4, 2 * i + 2, l2[2 * i + 2].key)
    requires forall j :: 0 <= j < |l4| && !InSubtree(2 * i + 2, j) ==> l4[j] == l3[j]
    ensures SubHeap(l4, i) && BoundedBelow(l4, i, lo)
    ensures forall j :: 0 <= j < |l4| && !InSubtree(i, j) ==> l4[j] == l0[j]
  {
    var l, r := 2 * i + 1, 2 * i + 2;
    assert InSubtree(i, l) && InSubtree(i, r) && InSubtree(l, l) && InSubtree(r, r);
    assert !InSubtree(r, i) && !InSubtree(r, l);
    forall j | 0 <= j < |l4| && InSubtree(l, j) ensures l4[j] == l2[j] {
      ChildrenDisjoint(i, j);
    }
    forall c | 0 < c < |l4| && InSubtree(i, Parent(c)) ensures l4[Parent(c)].key <= l4[c].key {
      var p := Parent(c);
      assert InSubtree(i, c);
      if p == i {
        assert c == l || c == r;
      } else {
        SubtreeSplit(i, p);
        if InSubtree(l, p) {
          assert InSubtree(l, c);
          ChildrenDisjoint(i, p);
          ChildrenDisjoint(i, c);
        } else {
          assert InSubtree(r, c);
        }
      }
    }
    forall j | 0 <= j < |l4| && InSubtree(i, j) ensures lo <= l4[j].key {
      if j == i {
        assert l2[r] == l0[r];
      } else {
        SubtreeSplit(i, j);
        if InSubtree(l, j) {
          ChildrenDisjoint(i, j);
          if l2[i] == l0[i] {
            assert InSubtree(i, i);
          } else {
            assert InSubtree(i, l);
          }
        } else {
          assert l2[r] == l0[r];
        }
      }
    }
    forall j | 0 <= j < |l4| && !InSubtree(i, j) ensures l4[j] == l0[j] {
      if InSubtree(r, j) {
        SubtreeOfChild(i, r, j);
      }
    }
  }

  /** When the right child is not smaller, the subtree of `i` is already a
      heap bounded by `lo`. */
  lemma NoRightSwap<V>(l0: seq<Entry<V>>, l2: seq<Entry<V>>, i: int, lo: int)
    requires 0 <= i && 2 * i + 2 < |l0| && |l2| == |l0|
    requires SubHeapBelow(l0, i) && BoundedBelow(l0, i, lo)
    requires forall j :: 0 <= j < |l2| && !InSubtree(i, j) ==> l2[j] == l0[j]
    requires forall j :: 0 <= j < |l2| && InSubtree(2 * i + 2, j) ==> l2[j] == l0[j]
    requires l2[i].key <= l0[i].key && (l2[i] == l0[i] || l2[i] == l0[2 * i + 1])
    requires l2[i].key <= l2[2 * i + 1].key
    requires SubHeap(l2, 2 * i + 1) && BoundedBelow(l2, 2 * i + 1, l2[i].key)
    requires l2[i].key <= l2[2 * i + 2].key
    ensures SubHeap(l2, i) && BoundedBelow(l2, i, lo)
  {
    var l, r := 2 * i + 1, 2 * i + 2;
    assert InSubtree(i, l) && InSubtree(i, r) && InSubtree(l, l) && InSubtree(r, r);
    forall c | 0 < c < |l2| && InSubtree(i, Parent(c)) ensures l2[Parent(c)].key <= l2[c].key {
      var p := Parent(c);
      if p != i {
        SubtreeSplit(i, p);
        if InSubtree(l, p) {
        } else {
          assert InSubtree(r, c);
          ChildrenDisjoint(i, p);
        }
      }
    }
    forall j | 0 <= j < |l2| && InSubtree(i, j) ensures lo <= l2[j].key {
      if j == i {
        assert InSubtree(i, l);
      } else {
        SubtreeSplit(i, j);
        if InSubtree(l, j) {
          assert InSubtree(i, l) && InSubtree(i, i);
        }
      }
    }
  }

  /** After the last entry refills the root, the index map is consistent,
      the contents lost exactly the old root's value, and the sift-down
      precondition holds with the old root key as bound. */
  lemma RefilledRoot<V>(l0: seq<Entry<V>>, i0: map<V, int>, list: seq<Entry<V>>, index: map<V, int>)
    requires |l0| >= 2 && IndexMapped(l0, i0) && HeapOrdered(l0)
    requires list == l0[..|l0| - 1][0 := l0[|l0| - 1]]
    requires index == i0[l0[|l0| - 1].value := 0] - {l0[0].value}
    ensures IndexMapped(list, index)
    ensures Contents(list, index) == Contents(l0, i0) - {l0[0].value}
    ensures SubHeapBelow(list, 0) && BoundedBelow(list, 0, l0[0].key)
  {
    RootIsMin(l0);
    forall c | 0 < c < |list| && InSubtree(0, Parent(c)) && Parent(c) != 0
      ensures list[Parent(c)].key <= list[c].key
    {
      assert l0[Parent(c)].key <= l0[c].key;
    }
  }
}
