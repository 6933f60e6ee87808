/** ResizingDequeImpl.java as written. `Snapshot` is the object's state as a
    value and the `...Of` functions give the effect of each method on it,
    statement by statement; the class `ResizingDequeImpl` performs the same
    steps on an array and is proved to agree with them. The lemmas at the
    end evaluate short call sequences that show where this code departs
    from a deque (see `CircularDeques` for the corrected structure). */
module ResizingDeques {
  import opened Wrappers
  import CircularDeques

  /** `arr`, and the boxed `head` and `tail`, which are null (`!started`)
      until the first insertion. */
  datatype Snapshot<E> = Snapshot(arr: seq<Option<E>>, started: bool, head: int, tail: int)

  /** `head == tail` on two `Integer` objects compares references. Both are
      produced by autoboxing, which shares objects only for -128..127. */
  predicate SameInteger(a: int, b: int)
  {
    a == b && -128 <= a <= 127
  }

  /** The states the methods can reach without an exception. */
  ghost predicate Inv<E>(s: Snapshot<E>)
  {
    && |s.arr| >= 2 && CircularDeques.PowerOfTwo(|s.arr|)
    && (s.started ==> 0 <= s.head < |s.arr| && -2 <= s.tail < |s.arr|)
  }

  /** The deque right after `new ResizingDequeImpl()`. */
  function Fresh<E>(): (s: Snapshot<E>)
    ensures Inv(s) && |s.arr| == 2 && SizeOf(s) == 0
  {
    Snapshot([None, None], false, 0, 0)
  }

  /** `size()`. */
  function SizeOf<E>(s: Snapshot<E>): (n: int)
    requires Inv(s)
    ensures 0 <= n <= |s.arr|
    ensures s.started && s.head <= s.tail && !(SameInteger(s.head, s.tail) && s.arr[s.head].None?) ==> n >= 1
  {
    if !s.started then 0
    else if SameInteger(s.head, s.tail) && s.arr[s.head].None? then 0
    else if s.head > s.tail then (|s.arr| - s.head) + (s.tail + 1)
    else s.tail - s.head + 1
  }

  /** `n` empty slots. */
  function Nones<E>(n: nat): (r: seq<Option<E>>)
    ensures |r| == n && forall i :: 0 <= i < n ==> r[i].None?
  {
    seq(n, _ => None)
  }

  /** The array `resizeArray` builds when the window wraps: the first loop
      copies `arr[head..]` to the front, the second copies `arr[i]` to
      `i + head` for `i` from `length - head - tail - 1`. */
  function WrapCopy<E>(arr: seq<Option<E>>, head: int, tail: int, n: nat): (r: seq<Option<E>>)
    requires 0 <= head < |arr| && |arr| - head <= n
    requires tail >= 0 ==> |arr| <= n && |arr| - head - tail - 1 >= 0
    ensures |r| == n
    ensures forall j :: 0 <= j < |arr| - head ==> r[j] == arr[head + j]
    ensures forall j :: |arr| - head <= j < n && (j < |arr| - tail - 1 || j >= |arr|) ==> r[j].None?
    ensures forall j :: |arr| - head <= j < n && |arr| - tail - 1 <= j < |arr| ==> 0 <= j - head && r[j] == arr[j - head]
  {
    seq(n, j requires 0 <= j < n =>
      if j < |arr| - head then arr[head + j]
      else if |arr| - tail - 1 <= j < |arr| then arr[j - head]
      else None)
  }

  /** `resizeArray(x)` with `x` = 2 (`grow`) or 0.5. A length-2 array is not
      shrunk. A copy loop that runs past either array ends in
      ArrayIndexOutOfBoundsException. */
  function Resized<E>(s: Snapshot<E>, grow: bool): (r: Result<Snapshot<E>>)
    requires Inv(s) && s.started
    ensures r.Success? ==> Inv(r.value) && r.value.started
    ensures r.Success? && !(|s.arr| == 2 && !grow) ==>
              |r.value.arr| == (if grow then 2 * |s.arr| else |s.arr| / 2) && r.value.head == 0
    ensures |s.arr| == 2 && !grow ==> r == Success(s)
    ensures r.Success? && !(|s.arr| == 2 && !grow) ==> -1 <= r.value.tail
    ensures r.Success? && grow ==> r.value.tail + 1 < |r.value.arr|
    ensures r.Success? && !(|s.arr| == 2 && !grow) && s.head <= s.tail ==>
              r.value.tail == s.tail - s.head && r.value.arr[..r.value.tail + 1] == s.arr[s.head..s.tail + 1]
    ensures r.Success? && !(|s.arr| == 2 && !grow) && s.head > s.tail ==>
              |s.arr| - s.head <= |r.value.arr| && r.value.arr[..|s.arr| - s.head] == s.arr[s.head..]
    ensures r.Failure? ==> r.error == IndexOutOfBounds
  {
    var L := |s.arr|;
    if L == 2 && !grow then Success(s)
    else
      var n := if grow then 2 * L else L / 2;
      if s.head <= s.tail then
        var count := s.tail - s.head + 1;
        if count > n then Failure(IndexOutOfBounds)
        else Success(Snapshot(s.arr[s.head..s.tail + 1] + Nones(n - count), true, 0, count - 1))
      else if L - s.head > n then Failure(IndexOutOfBounds)
      else if s.tail >= 0 && (L - s.head - s.tail - 1 < 0 || L > n) then Failure(IndexOutOfBounds)
      else
        var count := (L - s.head) + (if s.tail >= 0 then s.tail + 1 else 0);
        Success(Snapshot(WrapCopy(s.arr, s.head, s.tail, n), true, 0, count - 1))
  }

  /** `addFirst(e)`. */
  function AddFirstOf<E>(s: Snapshot<E>, e: E): (r: Result<Snapshot<E>>)
    requires Inv(s)
    ensures r.Success? ==> Inv(r.value) && r.value.started
    ensures r.Success? ==> r.value.arr[r.value.head] == Some(e)
  {
    var L := |s.arr|;
    var size := SizeOf(s);
    if size == 0 then Success(Snapshot(s.arr[L - 1 := Some(e)], true, L - 1, L - 1))
    else if size < L then
      if s.head < s.tail then Success(s.(arr := s.arr[L - 1 := Some(e)], head := L - 1))
      else if s.head - 1 < 0 then Failure(IndexOutOfBounds)
      else Success(s.(arr := s.arr[s.head - 1 := Some(e)], head := s.head - 1))
    else
      match Resized(s, true)
      case Failure(err) => Failure(err)
      case Success(t) => Success(t.(arr := t.arr[|t.arr| - 1 := Some(e)], head := |t.arr| - 1))
  }

  /** `addLast(e)`. */
  function AddLastOf<E>(s: Snapshot<E>, e: E): (r: Result<Snapshot<E>>)
    requires Inv(s)
    ensures r.Success? ==> Inv(r.value) && r.value.started
  {
    var L := |s.arr|;
    var size := SizeOf(s);
    if size == 0 then Success(Snapshot(s.arr[0 := Some(e)], true, 0, 0))
    else if size == 1 && s.head == L - 1 then
      Success(s.(arr := s.arr[s.head - 1 := Some(e)], tail := s.tail - 1))
    else if size < L then
      if !(0 <= s.tail + 1 < L) then Failure(IndexOutOfBounds)
      else Success(s.(arr := s.arr[s.tail + 1 := Some(e)], tail := s.tail + 1))
    else
      match Resized(s, true)
      case Failure(err) => Failure(err)
      case Success(t) => Success(t.(arr := t.arr[t.tail + 1 := Some(e)], tail := t.tail + 1))
  }

  /** A returned element (null is `None`) and the state afterwards. */
  datatype Polled<E> = Polled(value: Option<E>, after: Snapshot<E>)

  /** The removal step of `pollFirst()`, before any shrinking: the head slot
      is cleared and `head` moves on, wrapping to 0 from the last slot, or
      both indices go back to 0 when the deque is left empty. */
  function TakeFirst<E>(s: Snapshot<E>): (t: Snapshot<E>)
    requires Inv(s) && SizeOf(s) > 0
    ensures Inv(t) && |t.arr| == |s.arr| && t.started
  {
    var L := |s.arr|;
    var s1 := s.(arr := s.arr[s.head := None]);
    if s.head == L - 1 then s1.(head := 0)
    else if SizeOf(s1) == 0 then s1.(head := 0, tail := 0)
    else s1.(head := s.head + 1)
  }

  /** `pollFirst()`. */
  function PollFirstOf<E>(s: Snapshot<E>): (r: Result<Polled<E>>)
    requires Inv(s)
    ensures SizeOf(s) == 0 <==> r == Failure(NoSuchElement)
    ensures r.Success? ==> Inv(r.value.after) && r.value.value == s.arr[s.head]
  {
    if SizeOf(s) == 0 then Failure(NoSuchElement)
    else
      var s2 := TakeFirst(s);
      if SizeOf(s2) <= |s.arr| / 4 then
        match Resized(s2, false)
        case Failure(err) => Failure(err)
        case Success(t) => Success(Polled(s.arr[s.head], t))
      else Success(Polled(s.arr[s.head], s2))
  }

  /** The removal step of `pollLast()`, before any shrinking: the tail slot
      is cleared and `tail` moves back. */
  function TakeLast<E>(s: Snapshot<E>): (t: Snapshot<E>)
    requires Inv(s) && SizeOf(s) > 0 && s.tail >= 0
    ensures Inv(t) && |t.arr| == |s.arr| && t.started
  {
    s.(arr := s.arr[s.tail := None], tail := s.tail - 1)
  }

  /** `pollLast()`. */
  function PollLastOf<E>(s: Snapshot<E>): (r: Result<Polled<E>>)
    requires Inv(s)
    ensures SizeOf(s) == 0 ==> r == Failure(NoSuchElement)
    ensures r.Success? ==> Inv(r.value.after) && 0 <= s.tail && r.value.value == s.arr[s.tail]
  {
    if SizeOf(s) == 0 then Failure(NoSuchElement)
    else if s.tail < 0 then Failure(IndexOutOfBounds)
    else
      var s1 := TakeLast(s);
      if SizeOf(s1) - 1 <= |s.arr| / 4 then
        match Resized(s1, false)
        case Failure(err) => Failure(err)
        case Success(t) => Success(Polled(s.arr[s.tail], t))
      else Success(Polled(s.arr[s.tail], s1))
  }

  /** `peekFirst()`. */
  function PeekFirstOf<E>(s: Snapshot<E>): (r: Result<Option<E>>)
    requires Inv(s)
    ensures SizeOf(s) == 0 <==> r == Failure(NoSuchElement)
    ensures r.Success? ==> r.value == s.arr[s.head]
  {
    if SizeOf(s) == 0 then Failure(NoSuchElement) else Success(s.arr[s.head])
  }

  /** `peekLast()`: a negative `tail` fails in the array access. */
  function PeekLastOf<E>(s: Snapshot<E>): (r: Result<Option<E>>)
    requires Inv(s)
    ensures SizeOf(s) == 0 ==> r == Failure(NoSuchElement)
    ensures SizeOf(s) != 0 && s.tail < 0 ==> r == Failure(IndexOutOfBounds)
    ensures r.Success? ==> 0 <= s.tail && r.value == s.arr[s.tail]
  {
    if SizeOf(s) == 0 then Failure(NoSuchElement)
    else if s.tail < 0 then Failure(IndexOutOfBounds)
    else Success(s.arr[s.tail])
  }

  /** The slots the iterator visits from `i`: it returns `arr[i]` and moves
      on (wrapping at the end) until `i` reaches `tail`, whose element it
      never returns. */
  function Walk<E>(arr: seq<Option<E>>, i: int, tail: int, fuel: nat): seq<Option<E>>
    requires 0 <= i < |arr|
    decreases fuel
  {
    if i == tail || fuel == 0 then []
    else [arr[i]] + Walk(arr, if i == |arr| - 1 then 0 else i + 1, tail, fuel - 1)
  }

  /** `iterator()` run to the end: fails on a fresh deque (`head` is null),
      and is `None` when `tail` is not an array index, since `hasNext` then
      never turns false. */
  function IterationOf<E>(s: Snapshot<E>): (r: Result<Option<seq<Option<E>>>>)
    requires Inv(s)
    ensures !s.started <==> r == Failure(NullPointer)
    ensures r.Success? && r.value.Some? ==> 0 <= s.tail < |s.arr| && |r.value.value| < |s.arr|
  {
    if !s.started then Failure(NullPointer)
    else if !(0 <= s.tail < |s.arr|) then Success(None)
    else Success(Some(WalkShort(s.arr, s.head, s.tail)))
  }

  /** A walk from `i` reaches `tail` within `|arr| - 1` steps. */
  function WalkShort<E>(arr: seq<Option<E>>, i: int, tail: int): (r: seq<Option<E>>)
    requires 0 <= i < |arr| && 0 <= tail < |arr|
    ensures |r| < |arr|
    ensures r == Walk(arr, i, tail, |arr|)
    ensures i <= tail ==> r == arr[i..tail]
  {
    WalkLength(arr, i, tail, |arr|);
    Walk(arr, i, tail, |arr|)
  }

  /** How many steps the walk from `i` takes to reach `tail`. */
  function Steps(i: int, tail: int, L: int): int
  {
    if i <= tail then tail - i else L - i + tail
  }

  lemma {:induction false} WalkLength<E>(arr: seq<Option<E>>, i: int, tail: int, fuel: nat)
    requires 0 <= i < |arr| && 0 <= tail < |arr|
    requires fuel >= (if i <= tail then tail - i else |arr| - i + tail)
    ensures |Walk(arr, i, tail, fuel)| == (if i <= tail then tail - i else |arr| - i + tail)
    ensures i <= tail ==> Walk(arr, i, tail, fuel) == arr[i..tail]
    decreases fuel
  {
    if i != tail && fuel > 0 {
      WalkLength(arr, if i == |arr| - 1 then 0 else i + 1, tail, fuel - 1);
    }
  }

  /** After a successful `addFirst(e)`, `peekFirst()` returns `e`. */
  lemma AddFirstThenPeekFirst<E>(s: Snapshot<E>, e: E)
    requires Inv(s) && AddFirstOf(s, e).Success?
    ensures PeekFirstOf(AddFirstOf(s, e).value) == Success(Some(e))
  {
    var t := AddFirstOf(s, e).value;
    assert SizeOf(t) > 0 by {
      if SizeOf(s) != 0 && SizeOf(s) >= |s.arr| {
        var g := Resized(s, true).value;
        assert t.tail == g.tail && t.head == |g.arr| - 1;
      }
    }
  }

  /** A started deque with the given array, `head` and `tail`. */
  function At(arr: seq<Option<int>>, head: int, tail: int): Snapshot<int>
  {
    Snapshot(arr, true, head, tail)
  }

  /** The queue of a breadth-first search from 0 in the star graph with edges
      0-1 and 0-2 (`addLast(0)`, `pollFirst()`, `addLast(1)`, `addLast(2)`,
      `pollFirst()`, `pollFirst()`): once all three vertices have been
      polled, `size()` is 2 and the next `pollFirst()` returns null. */
  lemma StarGraphQueue()
    ensures AddLastOf(Fresh(), 0) == Success(At([Some(0), None], 0, 0))
    ensures PollFirstOf(At([Some(0), None], 0, 0)) == Success(Polled(Some(0), At([None, None], 0, 0)))
    ensures AddLastOf(At([None, None], 0, 0), 1) == Success(At([Some(1), None], 0, 0))
    ensures AddLastOf(At([Some(1), None], 0, 0), 2) == Success(At([Some(1), Some(2)], 0, 1))
    ensures PollFirstOf(At([Some(1), Some(2)], 0, 1)) == Success(Polled(Some(1), At([None, Some(2)], 1, 1)))
    ensures PollFirstOf(At([None, Some(2)], 1, 1)) == Success(Polled(Some(2), At([None, None], 0, 1)))
    ensures SizeOf(At([None, None], 0, 1)) == 2
    ensures PollFirstOf(At([None, None], 0, 1)) == Success(Polled(None, At([None, None], 1, 1)))
  {
    assert Fresh<int>().arr[0 := Some(0)] == [Some(0), None];
    assert [Some(0), None][0 := None] == [None, None];
    assert [None, None][0 := Some(1)] == [Some(1), None];
    assert [Some(1), None][1 := Some(2)] == [Some(1), Some(2)];
    assert [Some(1), Some(2)][0 := None] == [None, Some(2)];
    assert [None, Some(2)][1 := None] == [None, None];
    var empty: seq<Option<int>> := [None, None];
    assert empty[0 := None] == empty;
  }

  /** The queue of a breadth-first search from 0 over the edges 0-1, 0-2,
      0-3, 1-4 and 2-5: after 0, 1 and 2 are polled the array is
      `[null, null, 3, 4]` with `head` = 2 and `tail` = 3, and `addLast(5)`
      writes to index 4 of a length-4 array instead of wrapping or growing. */
  lemma BfsQueueOverrun()
    ensures AddLastOf(At([Some(1), Some(2)], 0, 1), 3) == Success(At([Some(1), Some(2), Some(3), None], 0, 2))
    ensures PollFirstOf(At([Some(1), Some(2), Some(3), None], 0, 2))
              == Success(Polled(Some(1), At([None, Some(2), Some(3), None], 1, 2)))
    ensures AddLastOf(At([None, Some(2), Some(3), None], 1, 2), 4) == Success(At([None, Some(2), Some(3), Some(4)], 1, 3))
    ensures PollFirstOf(At([None, Some(2), Some(3), Some(4)], 1, 3))
              == Success(Polled(Some(2), At([None, None, Some(3), Some(4)], 2, 3)))
    ensures SizeOf(At([None, None, Some(3), Some(4)], 2, 3)) == 2
    ensures AddLastOf(At([None, None, Some(3), Some(4)], 2, 3), 5) == Failure(IndexOutOfBounds)
  {
    var g := At([Some(1), Some(2), None, None], 0, 1);
    assert [Some(1), Some(2)][0..2] + Nones(2) == g.arr;
    assert Resized(At([Some(1), Some(2)], 0, 1), true) == Success(g);
    assert g.arr[2 := Some(3)] == [Some(1), Some(2), Some(3), None];
    assert [Some(1), Some(2), Some(3), None][0 := None] == [None, Some(2), Some(3), None];
    assert [None, Some(2), Some(3), None][3 := Some(4)] == [None, Some(2), Some(3), Some(4)];
    assert [None, Some(2), Some(3), Some(4)][1 := None] == [None, None, Some(3), Some(4)];
  }

  /** `addLast(1)` then `addFirst(2)`: the element sits at index 0 and
      `addFirst` writes to index -1. */
  lemma AddLastThenAddFirstFails()
    ensures AddLastOf(Fresh(), 1) == Success(At([Some(1), None], 0, 0))
    ensures AddFirstOf(At([Some(1), None], 0, 0), 2) == Failure(IndexOutOfBounds)
  {
    assert Fresh<int>().arr[0 := Some(1)] == [Some(1), None];
  }

  /** `addFirst(1)`, `addLast(2)`, `pollLast()`, `addLast(3)`: the deque
      then holds 1 and 3 but `size()` is 0 and `peekLast()` fails. */
  lemma AddLastLosesElements()
    ensures AddFirstOf(Fresh(), 1) == Success(At([None, Some(1)], 1, 1))
    ensures AddLastOf(At([None, Some(1)], 1, 1), 2) == Success(At([Some(2), Some(1)], 1, 0))
    ensures PollLastOf(At([Some(2), Some(1)], 1, 0)) == Success(Polled(Some(2), At([None, Some(1)], 1, -1)))
    ensures AddLastOf(At([None, Some(1)], 1, -1), 3) == Success(At([Some(3), Some(1)], 1, -2))
    ensures SizeOf(At([Some(3), Some(1)], 1, -2)) == 0
    ensures PeekLastOf(At([Some(3), Some(1)], 1, -2)) == Failure(NoSuchElement)
  {
    assert Fresh<int>().arr[1 := Some(1)] == [None, Some(1)];
    assert [None, Some(1)][0 := Some(2)] == [Some(2), Some(1)];
    assert [Some(2), Some(1)][0 := None] == [None, Some(1)];
    assert [None, Some(1)][0 := Some(3)] == [Some(3), Some(1)];
  }

  /** `addFirst(1)`, `addFirst(2)`, `addFirst(3)`, `addLast(4)`, `addLast(5)`:
      the last call grows a full array whose window wraps with `head` = 3,
      and the second copy loop starts at index -2. */
  lemma WrappedGrowFails()
    ensures AddFirstOf(Fresh(), 1) == Success(At([None, Some(1)], 1, 1))
    ensures AddFirstOf(At([None, Some(1)], 1, 1), 2) == Success(At([Some(2), Some(1)], 0, 1))
    ensures AddFirstOf(At([Some(2), Some(1)], 0, 1), 3) == Success(At([Some(2), Some(1), None, Some(3)], 3, 1))
    ensures AddLastOf(At([Some(2), Some(1), None, Some(3)], 3, 1), 4) == Success(At([Some(2), Some(1), Some(4), Some(3)], 3, 2))
    ensures AddLastOf(At([Some(2), Some(1), Some(4), Some(3)], 3, 2), 5) == Failure(IndexOutOfBounds)
  {
    assert Fresh<int>().arr[1 := Some(1)] == [None, Some(1)];
    assert [None, Some(1)][0 := Some(2)] == [Some(2), Some(1)];
    var g := At([Some(2), Some(1), None, None], 0, 1);
    assert [Some(2), Some(1)][0..2] + Nones(2) == g.arr;
    assert Resized(At([Some(2), Some(1)], 0, 1), true) == Success(g);
    assert g.arr[3 := Some(3)] == [Some(2), Some(1), None, Some(3)];
    assert [Some(2), Some(1), None, Some(3)][2 := Some(4)] == [Some(2), Some(1), Some(4), Some(3)];
  }

  /** `addLast(1)`, `addLast(2)`: the deque holds two elements, and the
      iterator returns only the first. */
  lemma IterationSkipsTail()
    ensures AddLastOf(Fresh(), 1) == Success(At([Some(1), None], 0, 0))
    ensures AddLastOf(At([Some(1), None], 0, 0), 2) == Success(At([Some(1), Some(2)], 0, 1))
    ensures SizeOf(At([Some(1), Some(2)], 0, 1)) == 2
    ensures IterationOf(At([Some(1), Some(2)], 0, 1)) == Success(Some([Some(1)]))
  {
    assert Fresh<int>().arr[0 := Some(1)] == [Some(1), None];
    assert [Some(1), None][1 := Some(2)] == [Some(1), Some(2)];
    assert [Some(1), Some(2)][0..1] == [Some(1)];
  }

  /** One `next()` call keeps the loop's account of the walk. */
  lemma WalkAdvance<E>(a: seq<Option<E>>, head: int, tail: int, i: int, out: seq<Option<E>>)
    requires 0 <= head < |a| && 0 <= tail < |a| && 0 <= i < |a| && i != tail
    requires |out| + Steps(i, tail, |a|) == Steps(head, tail, |a|) < |a|
    requires out + Walk(a, i, tail, |a| - |out|) == Walk(a, head, tail, |a|)
    ensures var next := if i == |a| - 1 then 0 else i + 1;
            && |out| + 1 + Steps(next, tail, |a|) == Steps(head, tail, |a|)
            && (out + [a[i]]) + Walk(a, next, tail, |a| - |out| - 1) == Walk(a, head, tail, |a|)
  {
    var next := if i == |a| - 1 then 0 else i + 1;
    assert Walk(a, i, tail, |a| - |out|) == [a[i]] + Walk(a, next, tail, |a| - |out| - 1);
    assert out + ([a[i]] + Walk(a, next, tail, |a| - |out| - 1)) == (out + [a[i]]) + Walk(a, next, tail, |a| - |out| - 1);
  }

  /** The `hasNext`/`next` loop of the iterator over a copy `a` of the
      array: from `head`, one slot at a time with wrap-around, until `tail`. */
  method WalkLoop<E>(a: seq<Option<E>>, head: int, tail: int) returns (out: seq<Option<E>>)
    requires 0 <= head < |a| && 0 <= tail < |a|
    ensures out == WalkShort(a, head, tail)
  {
    var L := |a|;
    out := [];
    var i := head;
    WalkLength(a, head, tail, L);
    while i != tail
      invariant 0 <= i < L
      invariant |out| + Steps(i, tail, L) == Steps(head, tail, L) < L
      invariant out + Walk(a, i, tail, L - |out|) == Walk(a, head, tail, L)
      decreases Steps(i, tail, L)
    {
      WalkAdvance(a, head, tail, i, out);
      out := out + [a[i]];
      i := if i == L - 1 then 0 else i + 1;
    }
    assert Walk(a, i, tail, L - |out|) == [];
  }

  class ResizingDequeImpl<E> {
    var arr: array<Option<E>>
    var started: bool
    var head: int
    var tail: int

    ghost function Snap(): Snapshot<E>
      reads this, arr
    {
      Snapshot(arr[..], started, head, tail)
    }

    constructor ()
      ensures Snap() == Fresh() && fresh(arr)
    {
      arr := new Option<E>[2](_ => None);
      started, head, tail := false, 0, 0;
    }

    /** `size()`. */
    function Size(): (n: int)
      reads this, arr
      requires Inv(Snap())
      ensures n == SizeOf(Snap())
      ensures 0 <= n <= arr.Length
    {
      if !started then 0
      else if SameInteger(head, tail) && arr[head].None? then 0
      else if head > tail then (arr.Length - head) + (tail + 1)
      else tail - head + 1
    }

    /** `peekFirst()`: changes nothing. */
    function PeekFirst(): (r: Result<Option<E>>)
      reads this, arr
      requires Inv(Snap())
      ensures r == PeekFirstOf(Snap())
    {
      if Size() == 0 then Failure(NoSuchElement) else Success(arr[head])
    }

    /** `peekLast()`: changes nothing. */
    function PeekLast(): (r: Result<Option<E>>)
      reads this, arr
      requires Inv(Snap())
      ensures r == PeekLastOf(Snap())
    {
      if Size() == 0 then Failure(NoSuchElement)
      else if tail < 0 then Failure(IndexOutOfBounds)
      else Success(arr[tail])
    }

    /** `getArray()`: a copy of the backing array. */
    method GetArray() returns (r: seq<Option<E>>)
      ensures r == arr[..]
    {
      r := [];
      var i := 0;
      while i < arr.Length
        invariant 0 <= i <= arr.Length && r == arr[..i]
      {
        r := r + [arr[i]];
        i := i + 1;
      }
    }

    /** `addFirst(e)`. */
    method AddFirst(e: E) returns (r: Outcome)
      requires Inv(Snap())
      modifies this, arr
      ensures AddFirstOf(old(Snap()), e).Failure? <==> r.Fail?
      ensures r.Fail? ==> r.error == AddFirstOf(old(Snap()), e).error
      ensures r.Pass? ==> Snap() == AddFirstOf(old(Snap()), e).value
    {
      var L := arr.Length;
      if Size() == 0 {
        arr[L - 1] := Some(e);
        started, head, tail := true, L - 1, L - 1;
      } else if Size() < L {
        if head < tail {
          arr[L - 1] := Some(e);
          head := L - 1;
        } else {
          if head - 1 < 0 {
            return Fail(IndexOutOfBounds);
          }
          arr[head - 1] := Some(e);
          head := head - 1;
        }
      } else {
        r := ResizeArray(true);
        if r.Fail? {
          return;
        }
        arr[arr.Length - 1] := Some(e);
        head := arr.Length - 1;
      }
      return Pass;
    }

    /** `addLast(e)`. */
    method AddLast(e: E) returns (r: Outcome)
      requires Inv(Snap())
      modifies this, arr
      ensures AddLastOf(old(Snap()), e).Failure? <==> r.Fail?
      ensures r.Fail? ==> r.error == AddLastOf(old(Snap()), e).error
      ensures r.Pass? ==> Snap() == AddLastOf(old(Snap()), e).value
    {
      if Size() == 0 {
        arr[0] := Some(e);
        started, head, tail := true, 0, 0;
      } else if Size() == 1 && head == arr.Length - 1 {
        arr[head - 1] := Some(e);
        tail := tail - 1;
      } else if Size() < arr.Length {
        if !(0 <= tail + 1 < arr.Length) {
          return Fail(IndexOutOfBounds);
        }
        arr[tail + 1] := Some(e);
        tail := tail + 1;
      } else {
        r := ResizeArray(true);
        if r.Fail? {
          return;
        }
        arr[tail + 1] := Some(e);
        tail := tail + 1;
      }
      return Pass;
    }

    /** `pollFirst()`. */
    method PollFirst() returns (r: Result<Option<E>>)
      requires Inv(Snap())
      modifies this, arr
      ensures PollFirstOf(old(Snap())).Failure? <==> r.Failure?
      ensures r.Failure? ==> r.error == PollFirstOf(old(Snap())).error
      ensures r.Success? ==>
                r.value == PollFirstOf(old(Snap())).value.value && Snap() == PollFirstOf(old(Snap())).value.after
    {
      if Size() == 0 {
        return Failure(NoSuchElement);
      }
      var ans := RemoveFirst();
      if Size() <= arr.Length / 4 {
        var o := ResizeArray(false);
        if o.Fail? {
          return Failure(o.error);
        }
      }
      return Success(ans);
    }

    /** The removal step of `pollFirst()`. */
    method RemoveFirst() returns (ans: Option<E>)
      requires Inv(Snap()) && SizeOf(Snap()) > 0
      modifies arr, `head, `tail
      ensures ans == old(arr[head]) && arr == old(arr) && Snap() == TakeFirst(old(Snap()))
    {
      ans := arr[head];
      arr[head] := None;
      if head == arr.Length - 1 {
        head := 0;
      } else if Size() == 0 {
        head, tail := 0, 0;
      } else {
        head := head + 1;
      }
    }

    /** `pollLast()`. */
    method PollLast() returns (r: Result<Option<E>>)
      requires Inv(Snap())
      modifies this, arr
      ensures PollLastOf(old(Snap())).Failure? <==> r.Failure?
      ensures r.Failure? ==> r.error == PollLastOf(old(Snap())).error
      ensures r.Success? ==>
                r.value == PollLastOf(old(Snap())).value.value && Snap() == PollLastOf(old(Snap())).value.after
    {
      if Size() == 0 {
        return Failure(NoSuchElement);
      }
      if tail < 0 {
        return Failure(IndexOutOfBounds);
      }
      var ans := RemoveLast();
      if Size() - 1 <= arr.Length / 4 {
        var o := ResizeArray(false);
        if o.Fail? {
          return Failure(o.error);
        }
      }
      return Success(ans);
    }

    /** The removal step of `pollLast()`. */
    method RemoveLast() returns (ans: Option<E>)
      requires Inv(Snap()) && SizeOf(Snap()) > 0 && tail >= 0
      modifies arr, `tail
      ensures ans == old(arr[tail]) && arr == old(arr) && Snap() == TakeLast(old(Snap()))
    {
      ans := arr[tail];
      arr[tail] := None;
      tail := tail - 1;
    }

    /** `iterator()` driven by `hasNext`/`next` until `hasNext` is false. */
    method Iterate() returns (r: Result<Option<seq<Option<E>>>>)
      requires Inv(Snap())
      ensures r == IterationOf(Snap())
    {
      if !started {
        return Failure(NullPointer);
      }
      if !(0 <= tail < arr.Length) {
        return Success(None);
      }
      var out := WalkLoop(arr[..], head, tail);
      return Success(Some(out));
    }

    /** `resizeArray(x)`: allocates the new array and runs the copy loops. */
    method ResizeArray(grow: bool) returns (r: Outcome)
      requires Inv(Snap()) && started
      modifies this
      ensures Resized(old(Snap()), grow).Failure? <==> r.Fail?
      ensures r.Fail? ==> r.error == IndexOutOfBounds
      ensures r.Pass? ==> Snap() == Resized(old(Snap()), grow).value && (arr == old(arr) || fresh(arr))
    {
      if arr.Length == 2 && !grow {
        return Pass;
      }
      var a, size := ResizedCopy(arr, head, tail, grow);
      if a.None? {
        return Fail(IndexOutOfBounds);
      }
      arr := a.value;
      head := 0;
      tail := size - 1;
      return Pass;
    }
  }

  /** The body of `resizeArray` past the length-2 guard: a new array of
      twice or half the length, filled by the copy loop for a straight or a
      wrapped window; `None` where a copy loop indexes out of bounds. */
  method ResizedCopy<E>(temp: array<Option<E>>, head: int, tail: int, grow: bool)
      returns (a: Option<array<Option<E>>>, size: int)
    requires Inv(Snapshot(temp[..], true, head, tail)) && !(temp.Length == 2 && !grow)
    ensures var t := Resized(Snapshot(temp[..], true, head, tail), grow);
            && (t.Success? <==> a.Some?)
            && (a.Some? ==> fresh(a.value) && a.value[..] == t.value.arr && t.value.tail == size - 1)
  {
    var L := temp.Length;
    var n := if grow then 2 * L else L / 2;
    var b := new Option<E>[n](_ => None);
    var ok;
    if head <= tail {
      ok, size := CopyStraight(temp, b, head, tail);
    } else {
      ok, size := CopyWrapped(temp, b, head, tail);
    }
    a := if ok then Some(b) else None;
  }

  /** The loop of `resizeArray` for an unwrapped window: `a[i] = temp[i + head]`
      for `i` up to `tail - head`. */
  method CopyStraight<E>(temp: array<Option<E>>, a: array<Option<E>>, head: int, tail: int)
      returns (ok: bool, size: int)
    requires temp != a && 0 <= head <= tail < temp.Length
    requires forall k :: 0 <= k < a.Length ==> a[k].None?
    modifies a
    ensures ok <==> tail - head + 1 <= a.Length
    ensures ok ==> size == tail - head + 1 && a[..] == temp[head..tail + 1] + Nones(a.Length - size)
  {
    var n := a.Length;
    size := 0;
    var i := 0;
    while i <= tail - head
      invariant 0 <= i <= tail - head + 1 && i <= n && size == i
      invariant forall k :: 0 <= k < i ==> a[k] == temp[k + head]
      invariant forall k :: i <= k < n ==> a[k].None?
    {
      if i >= n {
        return false, size;
      }
      a[i] := temp[i + head];
      size := size + 1;
      i := i + 1;
    }
    assert a[..] == temp[head..tail + 1] + Nones(n - size);
    return true, size;
  }

  /** The two loops of `resizeArray` for a wrapped window: `a[i] = temp[i + head]`
      for `i < length - head`, then `a[i + head] = temp[i]` for `i` from
      `length - head - tail - 1` to `length - head`. */
  method CopyWrapped<E>(temp: array<Option<E>>, a: array<Option<E>>, head: int, tail: int)
      returns (ok: bool, size: int)
    requires temp != a && 0 <= head < temp.Length && -2 <= tail < head
    requires forall k :: 0 <= k < a.Length ==> a[k].None?
    modifies a
    ensures ok <==> temp.Length - head <= a.Length &&
                    (tail >= 0 ==> temp.Length - head - tail - 1 >= 0 && temp.Length <= a.Length)
    ensures ok ==> size == (temp.Length - head) + (if tail >= 0 then tail + 1 else 0)
    ensures ok ==> a[..] == WrapCopy(temp[..], head, tail, a.Length)
  {
    var L, n := temp.Length, a.Length;
    size := 0;
    var i := 0;
    while i < L - head
      invariant 0 <= i <= L - head && i <= n && size == i
      invariant forall k :: 0 <= k < i ==> a[k] == temp[k + head]
      invariant forall k :: i <= k < n ==> a[k].None?
    {
      if i >= n {
        return false, size;
      }
      a[i] := temp[i + head];
      size := size + 1;
      i := i + 1;
    }
    i := L - head - tail - 1;
    ghost var start := i;
    while i < L - head
      invariant start <= i && (start < L - head ==> i <= L - head) && (start >= L - head ==> i == start)
      invariant size == (L - head) + (i - start)
      invariant L - head <= n
      invariant i > start ==> start >= 0 && i + head <= n
      invariant forall k :: 0 <= k < L - head ==> a[k] == temp[k + head]
      invariant forall k :: L - head <= k < n && !(start + head <= k < i + head) ==> a[k].None?
      invariant forall k :: start + head <= k < i + head ==> 0 <= k - head < L && k < n && a[k] == temp[k - head]
    {
      if i < 0 || i + head >= n {
        return false, size;
      }
      a[i + head] := temp[i];
      size := size + 1;
      i := i + 1;
    }
    ghost var w := WrapCopy(temp[..], head, tail, n);
    forall j | 0 <= j < n ensures a[j] == w[j] {
      if L - head <= j && L - tail - 1 <= j < L {
        assert start + head <= j < i + head;
      }
    }
    assert a[..] == w;
    return true, size;
  }
}
