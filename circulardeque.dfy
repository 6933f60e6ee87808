/** The circular-array deque that ResizingDequeImpl.java sets out to be: the
    window of `count` slots starting at `head` (wrapping at the end of the
    array) holds the contents in order; the array doubles when full and
    halves when a removal leaves it at most a quarter full, never below
    length 2. BFS uses this deque as its queue. */
module CircularDeques {
  import opened Wrappers

  /** Array lengths are powers of two: 2 at first, then doubled or halved. */
  ghost predicate PowerOfTwo(n: int)
    decreases n
  {
    n == 1 || (n > 1 && n % 2 == 0 && PowerOfTwo(n / 2))
  }

  class CircularDeque<E> {
    var arr: array<Option<E>>
    var head: int
    var count: int
    ghost var Contents: seq<E>

    ghost predicate Valid()
      reads this, arr
    {
      && arr.Length >= 2 && PowerOfTwo(arr.Length)
      && 0 <= head < arr.Length
      && 0 <= count <= arr.Length
      && |Contents| == count
      && (forall i :: 0 <= i < count ==> arr[Slot(i)] == Some(Contents[i]))
    }

    /** The array position of the `i`-th element, wrapping past the end. */
    function Slot(i: int): (s: int)
      reads this, arr
      requires 0 <= head < arr.Length && 0 <= i < arr.Length
      ensures 0 <= s < arr.Length
    {
      if head + i < arr.Length then head + i else head + i - arr.Length
    }

    constructor ()
      ensures Valid() && fresh(arr) && Contents == [] && arr.Length == 2
    {
      arr := new Option<E>[2](_ => None);
      head := 0;
      count := 0;
      Contents := [];
    }

    /** `size()`: the number of elements. */
    function Size(): (n: int)
      reads this, arr
      requires Valid()
      ensures n == |Contents| && 0 <= n <= arr.Length
    {
      count
    }

    /** `peekFirst()`: the front element, or NoSuchElement when empty. */
    function PeekFirst(): (r: Result<E>)
      reads this, arr
      requires Valid()
      ensures |Contents| == 0 <==> r == Failure(NoSuchElement)
      ensures |Contents| > 0 ==> r == Success(Contents[0])
    {
      if count == 0 then Failure(NoSuchElement) else Success(arr[Slot(0)].value)
    }

    /** `peekLast()`: the back element, or NoSuchElement when empty. */
    function PeekLast(): (r: Result<E>)
      reads this, arr
      requires Valid()
      ensures |Contents| == 0 <==> r == Failure(NoSuchElement)
      ensures |Contents| > 0 ==> r == Success(Contents[|Contents| - 1])
    {
      if count == 0 then Failure(NoSuchElement) else Success(arr[Slot(count - 1)].value)
    }

    /** `resizeArray`: copies the window, in order, to the front of a new
        array of length `newLength`. */
    method Resize(newLength: int)
      requires Valid() && count <= newLength && 2 <= newLength && PowerOfTwo(newLength)
      modifies this
      ensures Valid() && fresh(arr) && arr.Length == newLength
      ensures Contents == old(Contents) && head == 0
    {
      var temp := arr;
      var grown := new Option<E>[newLength](_ => None);
      var i := 0;
      while i < count
        invariant grown.Length == newLength && fresh(grown)
        modifies grown
        invariant Valid() && arr == temp
        invariant 0 <= i <= count
        invariant forall k :: 0 <= k < i ==> grown[k] == Some(Contents[k])
      {
        grown[i] := temp[Slot(i)];
        i := i + 1;
      }
      arr := grown;
      head := 0;
    }

    /** `addFirst(e)`: doubles a full array, then puts `e` in front. */
    method AddFirst(e: E)
      requires Valid()
      modifies this, arr
      ensures Valid() && Contents == [e] + old(Contents)
      ensures arr == old(arr) || fresh(arr)
    {
      if count == arr.Length {
        Resize(2 * arr.Length);
      }
      var h := if head == 0 then arr.Length - 1 else head - 1;
      ghost var h0 := head;
      arr[h] := Some(e);
      head := h;
      count := count + 1;
      Contents := [e] + Contents;
      forall i | 1 <= i < count ensures arr[Slot(i)] == Some(Contents[i]) {
        assert Slot(i) == if h0 + i - 1 < arr.Length then h0 + i - 1 else h0 + i - 1 - arr.Length;
      }
    }

    /** `addLast(e)`: doubles a full array, then puts `e` at the back. */
    method AddLast(e: E)
      requires Valid()
      modifies this, arr
      ensures Valid() && Contents == old(Contents) + [e]
      ensures arr == old(arr) || fresh(arr)
    {
      if count == arr.Length {
        Resize(2 * arr.Length);
      }
      arr[Slot(count)] := Some(e);
      count := count + 1;
      Contents := Contents + [e];
    }

    /** `pollFirst()`: removes and returns the front element, halving the
        array when it is then at most a quarter full. */
    method PollFirst() returns (r: Result<E>)
      requires Valid()
      modifies this, arr
      ensures Valid() && (arr == old(arr) || fresh(arr))
      ensures old(|Contents|) == 0 <==> r == Failure(NoSuchElement)
      ensures r.Success? <==> old(|Contents|) > 0
      ensures r.Failure? ==> Contents == old(Contents)
      ensures r.Success? ==> [r.value] + Contents == old(Contents)
    {
      if count == 0 {
        return Failure(NoSuchElement);
      }
      var ans := DropFirst();
      ShrinkIfSparse();
      return Success(ans);
    }

    /** The removal step of `pollFirst()`: clears the front slot and moves
        `head` on, wrapping at the end of the array. */
    method DropFirst() returns (ans: E)
      requires Valid() && count > 0
      modifies this, arr
      ensures Valid() && arr == old(arr) && [ans] + Contents == old(Contents)
    {
      assert arr[Slot(0)] == Some(Contents[0]);
      ans := arr[head].value;
      ghost var h0 := head;
      arr[head] := None;
      head := if head == arr.Length - 1 then 0 else head + 1;
      count := count - 1;
      Contents := Contents[1..];
      forall i | 0 <= i < count ensures arr[Slot(i)] == Some(Contents[i]) {
        assert Slot(i) == if h0 + i + 1 < arr.Length then h0 + i + 1 else h0 + i + 1 - arr.Length;
      }
    }

    /** Halves the array when a removal left it at most a quarter full,
        never below length 2. */
    method ShrinkIfSparse()
      requires Valid()
      modifies this
      ensures Valid() && Contents == old(Contents) && (arr == old(arr) || fresh(arr))
    {
      if count <= arr.Length / 4 && arr.Length > 2 {
        Resize(arr.Length / 2);
      }
    }

    /** `pollLast()`: removes and returns the back element, halving the array
        when it is then at most a quarter full. */
    method PollLast() returns (r: Result<E>)
      requires Valid()
      modifies this, arr
      ensures Valid() && (arr == old(arr) || fresh(arr))
      ensures old(|Contents|) == 0 <==> r == Failure(NoSuchElement)
      ensures r.Success? <==> old(|Contents|) > 0
      ensures r.Failure? ==> Contents == old(Contents)
      ensures r.Success? ==> Contents + [r.value] == old(Contents)
    {
      if count == 0 {
        return Failure(NoSuchElement);
      }
      var ans := DropLast();
      ShrinkIfSparse();
      return Success(ans);
    }

    /** The removal step of `pollLast()`: clears the back slot. */
    method DropLast() returns (ans: E)
      requires Valid() && count > 0
      modifies this, arr
      ensures Valid() && arr == old(arr) && Contents + [ans] == old(Contents)
    {
      var last := Slot(count - 1);
      assert arr[last] == Some(Contents[count - 1]);
      ans := arr[last].value;
      arr[last] := None;
      count := count - 1;
      Contents := Contents[..count];
      forall i | 0 <= i < count ensures arr[Slot(i)] == Some(Contents[i]) {
        assert Slot(i) != last;
      }
    }

    /** `iterator()`: visits the elements from front to back. */
    method Elements() returns (s: seq<E>)
      requires Valid()
      ensures s == Contents
    {
      s := [];
      var i := 0;
      while i < count
        invariant 0 <= i <= count && s == Contents[..i]
      {
        s := s + [arr[Slot(i)].value];
        i := i + 1;
      }
    }
  }
}
