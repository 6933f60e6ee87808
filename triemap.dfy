/** A trie keyed by strings over the lowercase alphabet. Every node has an
    optional value and a children array of 26 slots that is allocated on
    first use; the key of a node is the path of letters from the root.

    Nodes are modelled as values: the walks of `put` and `remove`, which
    write into the nodes they pass, keep the nodes they descend through as a
    stack of frames (a zipper) and plug the updated node back in at the end.
    The map itself is a class whose `root` and `size` fields the operations
    reassign. */
module Tries {
  import opened Wrappers

  /** The size of the key alphabet: the letters 'a' to 'z'. */
  const BRANCH_FACTOR := 26

  /** A trie node: its children array (`Null` until allocated) and its value. */
  datatype Node<V> = Node(children: Kids<V>, value: Option<V>)

  /** A node's children array, or `null`. */
  datatype Kids<V> = Null | Array(slots: seq<Slot<V>>)

  /** One cell of a children array: a node, or `null`. */
  datatype Slot<V> = Empty | Child(node: Node<V>)

  /** A freshly allocated children array: 26 empty cells. */
  function Blank<V>(): (slots: seq<Slot<V>>)
    ensures |slots| == BRANCH_FACTOR && forall i :: 0 <= i < |slots| ==> slots[i].Empty?
  {
    seq(BRANCH_FACTOR, _ => Empty)
  }

  /** Every children array in the trie has 26 cells. */
  ghost predicate Wf<V>(n: Node<V>)
  {
    n.children.Array? ==>
      (|n.children.slots| == BRANCH_FACTOR &&
       forall i :: 0 <= i < BRANCH_FACTOR && n.children.slots[i].Child? ==> Wf(n.children.slots[i].node))
  }

  predicate IsLetter(c: char)
  {
    'a' <= c <= 'z'
  }

  /** Every character of the key is a lowercase letter. */
  predicate Letters(key: string)
  {
    forall i :: 0 <= i < |key| ==> IsLetter(key[i])
  }

  /** The array index of a letter. */
  function Index(c: char): (x: int)
    requires IsLetter(c)
    ensures 0 <= x < BRANCH_FACTOR
  {
    c as int - 'a' as int
  }

  /** `convertToIndex`: a letter's cell, or IllegalArgumentException. */
  function ConvertToIndex(c: char): (r: Result<int>)
    ensures r.Success? <==> IsLetter(c)
    ensures r.Success? ==> 0 <= r.value < BRANCH_FACTOR
  {
    if c < 'a' || c > 'z' then Failure(IllegalArgument) else Success(c as int - 'a' as int)
  }

  /** `convertToChar`: a cell's letter, or IllegalArgumentException; it
      inverts `convertToIndex` in both directions. */
  function ConvertToChar(i: int): (r: Result<char>)
    ensures r.Success? <==> 0 <= i < BRANCH_FACTOR
    ensures r.Success? ==> ConvertToIndex(r.value) == Success(i)
    ensures forall c :: ConvertToIndex(c) == Success(i) ==> r == Success(c)
  {
    if i < 0 || i >= BRANCH_FACTOR then Failure(IllegalArgument) else Success((i + 'a' as int) as char)
  }

  // ---------------------------------------------------------------------
  // What a trie stores

  /** The value stored under `key`, or `None` when the path is missing. */
  ghost function Find<V>(n: Node<V>, key: string): Option<V>
    requires Wf(n)
    decreases |key|
  {
    if |key| == 0 then n.value
    else if !IsLetter(key[0]) || n.children.Null? then None
    else match n.children.slots[Index(key[0])]
      case Empty => None
      case Child(c) => Find(c, key[1..])
  }

  /** The keys that have a value. */
  ghost function Keys<V>(n: Node<V>): set<string>
    requires Wf(n)
  {
    (if n.value.Some? then {[]} else {}) +
    (if n.children.Null? then {} else
      set i, k | 0 <= i < BRANCH_FACTOR && n.children.slots[i].Child? && k in Keys(n.children.slots[i].node)
        :: [(i + 'a' as int) as char] + k)
  }

  /** Some node of the trie holds `v`. */
  ghost predicate Holds<V>(n: Node<V>, v: V)
    requires Wf(n)
  {
    n.value == Some(v) ||
    (n.children.Array? &&
     exists i :: 0 <= i < BRANCH_FACTOR && n.children.slots[i].Child? && Holds(n.children.slots[i].node, v))
  }

  /** The number of nodes of the trie, which bounds the breadth-first walk. */
  ghost function Size<V>(n: Node<V>): nat
    decreases n, 1
  {
    1 + (if n.children.Null? then 0 else KidsSize(n, |n.children.slots|))
  }

  /** The number of nodes below the first `j` cells of `n`'s children array. */
  ghost function KidsSize<V>(n: Node<V>, j: int): nat
    requires n.children.Array? && 0 <= j <= |n.children.slots|
    decreases n, 0, j
  {
    if j == 0 then 0
    else KidsSize(n, j - 1) + (match n.children.slots[j - 1] case Empty => 0 case Child(c) => Size(c))
  }

  // ---------------------------------------------------------------------
  // The operations, key by key

  /** `n` with cell `x` of its children array set to `c`. */
  function SetChild<V>(n: Node<V>, x: int, c: Node<V>): (m: Node<V>)
    requires n.children.Array? && 0 <= x < |n.children.slots|
    ensures m.value == n.value && m.children.Array? && |m.children.slots| == |n.children.slots|
    ensures m.children.slots[x] == Child(c)
    ensures forall y :: 0 <= y < |m.children.slots| && y != x ==> m.children.slots[y] == n.children.slots[y]
  {
    Node(Array(n.children.slots[x := Child(c)]), n.value)
  }

  /** `n` after `initChildren`, when its children array was `null`. */
  function Opened<V>(n: Node<V>): (p: Node<V>)
    requires Wf(n)
    ensures Wf(p) && p.children.Array? && p.value == n.value
  {
    if n.children.Null? then Node(Array(Blank()), n.value) else n
  }

  /** The child in cell `x`, or a new empty node when the cell is `null`. */
  function ChildOrLeaf<V>(p: Node<V>, x: int): (c: Node<V>)
    requires Wf(p) && p.children.Array? && 0 <= x < BRANCH_FACTOR
    ensures Wf(c)
  {
    if p.children.slots[x].Child? then p.children.slots[x].node else Node(Null, None)
  }

  /** What `put` leaves in the trie below `n` and what it returns, for a
      non-empty key: each step allocates a missing children array and a
      missing child before it moves on, so a character outside 'a'..'z'
      fails only after the nodes for the letters before it exist. */
  function PutFrom<V>(n: Node<V>, key: string, value: V): (res: (Node<V>, Result<Option<V>>))
    requires Wf(n) && |key| > 0
    ensures res.0.value == n.value
    ensures res.1.Failure? ==> res.1.error == IllegalArgument
    ensures IsLetter(key[0]) ==> res.0.children.Array? && |res.0.children.slots| == BRANCH_FACTOR
    ensures !IsLetter(key[0]) ==> res.0 == n && res.1.Failure?
    decreases |key|
  {
    if !IsLetter(key[0]) then (n, Failure(IllegalArgument))
    else
      var x := Index(key[0]);
      var p := Opened(n);
      var child := ChildOrLeaf(p, x);
      if |key| == 1 then (SetChild(p, x, child.(value := Some(value))), Success(child.value))
      else
        var (c, r) := PutFrom(child, key[1..], value);
        (SetChild(p, x, c), r)
  }

  /** What `get` returns for a non-empty key: a missing child in the middle
      of the walk gives `null`, but the last step reads the value of the
      child without testing it, so a missing last child, or a missing
      children array anywhere, raises NullPointerException. */
  function GetFrom<V>(n: Node<V>, key: string): (r: Result<Option<V>>)
    requires Wf(n) && |key| > 0
    ensures r.Failure? ==> r.error == IllegalArgument || r.error == NullPointer
    ensures !IsLetter(key[0]) ==> r == Failure(IllegalArgument)
    ensures IsLetter(key[0]) && n.children.Null? ==> r == Failure(NullPointer)
    decreases |key|
  {
    if !IsLetter(key[0]) then Failure(IllegalArgument)
    else if n.children.Null? then Failure(NullPointer)
    else
      var slot := n.children.slots[Index(key[0])];
      if |key| == 1 then
        (if slot.Empty? then Failure(NullPointer) else Success(slot.node.value))
      else if slot.Empty? then Success(None)
      else GetFrom(slot.node, key[1..])
  }

  /** The trie with the value under `key` cleared, as `remove` leaves it. */
  function Erase<V>(n: Node<V>, key: string): (m: Node<V>)
    requires Wf(n)
    ensures m.value == if |key| == 0 then None else n.value
    ensures m.children.Null? <==> n.children.Null?
    ensures m.children.Array? ==> |m.children.slots| == |n.children.slots|
    ensures |key| > 0 && (!IsLetter(key[0]) || n.children.Null?) ==> m == n
    decreases |key|
  {
    if |key| == 0 then n.(value := None)
    else if !IsLetter(key[0]) || n.children.Null? then n
    else
      var x := Index(key[0]);
      match n.children.slots[x]
      case Empty => n
      case Child(c) => SetChild(n, x, Erase(c, key[1..]))
  }

  // ---------------------------------------------------------------------
  // The path a walk has come down

  /** A node the walk has passed, and the cell of its children array the
      walk went on through. */
  datatype Frame<V> = Frame(parent: Node<V>, slot: int)

  ghost predicate Hooked<V>(frames: seq<Frame<V>>)
  {
    forall j :: 0 <= j < |frames| ==>
      frames[j].parent.children.Array? && 0 <= frames[j].slot < |frames[j].parent.children.slots|
  }

  /** The root rebuilt from the frames, with `n` at the bottom. */
  function Plug<V>(frames: seq<Frame<V>>, n: Node<V>): Node<V>
    requires Hooked(frames)
    decreases |frames|
  {
    if |frames| == 0 then n
    else
      var f := frames[|frames| - 1];
      Plug(frames[..|frames| - 1], SetChild(f.parent, f.slot, n))
  }

  lemma PlugPush<V>(frames: seq<Frame<V>>, f: Frame<V>, n: Node<V>)
    requires Hooked(frames) && f.parent.children.Array? && 0 <= f.slot < |f.parent.children.slots|
    ensures Hooked(frames + [f])
    ensures Plug(frames + [f], n) == Plug(frames, SetChild(f.parent, f.slot, n))
  {
    assert (frames + [f])[..|frames|] == frames;
  }

  /** The state of the walk of `put` before character `i`: the frames
      above `walker`, with what the rest of the walk does to `walker`
      plugged in, give what the whole walk does to `start`. */
  ghost predicate Planting<V>(frames: seq<Frame<V>>, walker: Node<V>, key: string, i: int, value: V, start: Node<V>)
  {
    Wf(start) && Wf(walker) && Hooked(frames) && 0 <= i < |key| &&
    Plug(frames, PutFrom(walker, key[i..], value).0) == PutFrom(start, key, value).0 &&
    PutFrom(walker, key[i..], value).1 == PutFrom(start, key, value).1
  }

  /** The walk of `put` stops at a character that is not a letter. */
  lemma PlantStops<V>(frames: seq<Frame<V>>, walker: Node<V>, key: string, i: int, value: V, start: Node<V>)
    requires Planting(frames, walker, key, i, value, start) && !IsLetter(key[i])
    ensures Plug(frames, walker) == PutFrom(start, key, value).0
    ensures PutFrom(start, key, value).1 == Failure(IllegalArgument)
  {
    assert key[i..][0] == key[i];
  }

  /** One step of the walk of `put` through a letter that is not the last. */
  lemma PlantStep<V>(frames: seq<Frame<V>>, walker: Node<V>, key: string, i: int, value: V, start: Node<V>)
    requires Planting(frames, walker, key, i, value, start) && i < |key| - 1 && IsLetter(key[i])
    ensures Opened(walker).children.Array? && |Opened(walker).children.slots| == BRANCH_FACTOR
    ensures Planting(frames + [Frame(Opened(walker), Index(key[i]))],
      ChildOrLeaf(Opened(walker), Index(key[i])), key, i + 1, value, start)
  {
    var parent := Opened(walker);
    var x := Index(key[i]);
    var child := ChildOrLeaf(parent, x);
    assert key[i..][0] == key[i] && key[i..][1..] == key[i + 1..];
    var next := PutFrom(child, key[i + 1..], value);
    assert PutFrom(walker, key[i..], value).0 == SetChild(parent, x, next.0);
    assert PutFrom(walker, key[i..], value).1 == next.1;
    PlugPush(frames, Frame(parent, x), next.0);
  }

  /** The last step of the walk of `put`, which stores the value. */
  lemma PlantLast<V>(frames: seq<Frame<V>>, walker: Node<V>, key: string, i: int, value: V, start: Node<V>)
    requires Planting(frames, walker, key, i, value, start) && i == |key| - 1 && IsLetter(key[i])
    ensures Opened(walker).children.Array? && |Opened(walker).children.slots| == BRANCH_FACTOR
    ensures Hooked(frames + [Frame(Opened(walker), Index(key[i]))])
    ensures Plug(frames + [Frame(Opened(walker), Index(key[i]))],
      ChildOrLeaf(Opened(walker), Index(key[i])).(value := Some(value))) == PutFrom(start, key, value).0
    ensures PutFrom(start, key, value).1 == Success(ChildOrLeaf(Opened(walker), Index(key[i])).value)
  {
    var parent := Opened(walker);
    var x := Index(key[i]);
    var child := ChildOrLeaf(parent, x);
    assert key[i..][0] == key[i] && |key[i..]| == 1;
    assert PutFrom(walker, key[i..], value).0 == SetChild(parent, x, child.(value := Some(value)));
    PlugPush(frames, Frame(parent, x), child.(value := Some(value)));
  }

  // ---------------------------------------------------------------------
  // Lemmas

  /** Only letter paths reach a value. */
  lemma {:induction false} FoundLetters<V>(n: Node<V>, key: string)
    requires Wf(n) && Find(n, key).Some?
    ensures Letters(key)
    decreases |key|
  {
    if |key| > 0 {
      var c := n.children.slots[Index(key[0])].node;
      FoundLetters(c, key[1..]);
      forall i | 0 <= i < |key| ensures IsLetter(key[i]) {
        if i > 0 {
          assert key[i] == key[1..][i - 1];
        }
      }
    }
  }

  lemma {:induction false} PutWf<V>(n: Node<V>, key: string, value: V)
    requires Wf(n) && |key| > 0
    ensures Wf(PutFrom(n, key, value).0)
    decreases |key|
  {
    if IsLetter(key[0]) && |key| > 1 {
      PutWf(ChildOrLeaf(Opened(n), Index(key[0])), key[1..], value);
    }
  }

  /** `put` succeeds exactly on keys of letters, and then returns the value
      the key had before. */
  lemma {:induction false} PutReturns<V>(n: Node<V>, key: string, value: V)
    requires Wf(n) && |key| > 0
    ensures PutFrom(n, key, value).1.Success? <==> Letters(key)
    ensures PutFrom(n, key, value).1.Success? ==> PutFrom(n, key, value).1.value == Find(n, key)
    ensures PutFrom(n, key, value).1.Failure? ==> PutFrom(n, key, value).1.error == IllegalArgument
    decreases |key|
  {
    if !IsLetter(key[0]) {
      assert !Letters(key);
    } else if |key| > 1 {
      var x := Index(key[0]);
      var slots := Opened(n).children.slots;
      var child := ChildOrLeaf(Opened(n), x);
      PutReturns(child, key[1..], value);
      assert Letters(key) <==> Letters(key[1..]) by {
        if Letters(key[1..]) {
          forall i | 0 <= i < |key| ensures IsLetter(key[i]) {
            if i > 0 { assert key[i] == key[1..][i - 1]; }
          }
        }
        if Letters(key) {
          forall i | 0 <= i < |key[1..]| ensures IsLetter(key[1..][i]) {
            assert key[1..][i] == key[i + 1];
          }
        }
      }
      if slots[x].Empty? {
        LeafFindsNothing(child, key[1..]);
      }
    }
  }

  /** A node without children stores nothing under a non-empty key. */
  lemma LeafFindsNothing<V>(n: Node<V>, key: string)
    requires n == Node(Null, None)
    ensures Find(n, key) == None
  {
  }

  /** After `put`, the key maps to the new value and every other key keeps
      its value; when `put` fails, no key changes (only empty nodes were
      added). */
  lemma {:induction false} PutFinds<V>(n: Node<V>, key: string, value: V, other: string)
    requires Wf(n) && |key| > 0
    ensures Wf(PutFrom(n, key, value).0)
    ensures Find(PutFrom(n, key, value).0, other) ==
      (if other == key && PutFrom(n, key, value).1.Success? then Some(value) else Find(n, other))
    decreases |key|
  {
    PutWf(n, key, value);
    var (m, r) := PutFrom(n, key, value);
    if IsLetter(key[0]) && |other| > 0 && IsLetter(other[0]) {
      var x := Index(key[0]);
      var slots := Opened(n).children.slots;
      var child := ChildOrLeaf(Opened(n), x);
      if other[0] == key[0] {
        assert other == key <==> other[1..] == key[1..] by {
          assert other == [other[0]] + other[1..];
          assert key == [key[0]] + key[1..];
        }
        if slots[x].Empty? {
          LeafFindsNothing(child, other[1..]);
        }
        if |key| > 1 {
          PutFinds(child, key[1..], value, other[1..]);
        }
      }
    }
  }

  /** `get` never contradicts the trie's contents, fails with
      IllegalArgumentException only on a key with a non-letter, and returns
      the value of every key that has one. */
  lemma {:induction false} GetFinds<V>(n: Node<V>, key: string)
    requires Wf(n) && |key| > 0
    ensures GetFrom(n, key).Success? ==> GetFrom(n, key).value == Find(n, key)
    ensures GetFrom(n, key) == Failure(IllegalArgument) ==> !Letters(key)
    ensures GetFrom(n, key).Failure? ==> Find(n, key).None?
    ensures Find(n, key).Some? ==> GetFrom(n, key) == Success(Find(n, key))
    decreases |key|
  {
    if IsLetter(key[0]) && n.children.Array? && |key| > 1 {
      var slot := n.children.slots[Index(key[0])];
      if slot.Child? {
        GetFinds(slot.node, key[1..]);
        if !Letters(key[1..]) {
          var i :| 0 <= i < |key[1..]| && !IsLetter(key[1..][i]);
          assert key[i + 1] == key[1..][i];
        }
      }
    }
  }

  /** `get` on a key that has no value throws instead of returning `null`,
      both on a new map (whose root has no children array) and on a cleared
      one (whose root's cell for the key is `null`). */
  lemma AbsentKeyThrows()
    ensures Find<int>(Node(Null, None), "a") == None
    ensures GetFrom<int>(Node(Null, None), "a") == Failure(NullPointer)
    ensures Find<int>(Node(Array(Blank()), None), "a") == None
    ensures GetFrom<int>(Node(Array(Blank()), None), "a") == Failure(NullPointer)
  {
  }

  /** A key read back right after `put` gives the value just stored. */
  lemma PutThenGet<V>(n: Node<V>, key: string, value: V)
    requires Wf(n) && |key| > 0 && Letters(key)
    ensures Wf(PutFrom(n, key, value).0)
    ensures GetFrom(PutFrom(n, key, value).0, key) == Success(Some(value))
  {
    PutReturns(n, key, value);
    PutFinds(n, key, value, key);
    GetFinds(PutFrom(n, key, value).0, key);
  }

  /** Erasing clears the value of the key and of no other key. */
  lemma {:induction false} EraseFinds<V>(n: Node<V>, key: string, other: string)
    requires Wf(n)
    ensures Wf(Erase(n, key))
    ensures Find(Erase(n, key), other) == if other == key then None else Find(n, other)
    decreases |key|
  {
    if |key| > 0 && IsLetter(key[0]) && n.children.Array? && n.children.slots[Index(key[0])].Child? {
      var c := n.children.slots[Index(key[0])].node;
      EraseFinds(c, key[1..], if |other| > 0 then other[1..] else other);
      if |other| > 0 && other[0] == key[0] {
        assert other == key <==> other[1..] == key[1..] by {
          assert other == [other[0]] + other[1..];
          assert key == [key[0]] + key[1..];
        }
      }
    } else if |key| > 0 && key == other {
      assert Find(n, other) == None;
    }
  }

  /** A non-empty key of a trie is a letter followed by a key of the child
      for that letter. */
  lemma KeysSplit<V>(n: Node<V>, key: string)
    requires Wf(n) && key in Keys(n) && key != []
    ensures exists i, k :: (0 <= i < BRANCH_FACTOR && n.children.slots[i].Child? &&
      k in Keys(n.children.slots[i].node) && key == [(i + 'a' as int) as char] + k)
  {
  }

  /** The keys of a trie are exactly those `Find` gives a value for. */
  lemma {:induction false} KeysFind<V>(n: Node<V>, key: string)
    requires Wf(n)
    ensures key in Keys(n) <==> Find(n, key).Some?
    decreases |key|
  {
    if |key| > 0 {
      if key in Keys(n) {
        KeysSplit(n, key);
        var i, k :| 0 <= i < BRANCH_FACTOR && n.children.slots[i].Child? && k in Keys(n.children.slots[i].node)
          && key == [(i + 'a' as int) as char] + k;
        assert key[1..] == k;
        KeysFind(n.children.slots[i].node, k);
      } else if IsLetter(key[0]) && n.children.Array? && n.children.slots[Index(key[0])].Child? {
        var x := Index(key[0]);
        KeysFind(n.children.slots[x].node, key[1..]);
        assert key == [(x + 'a' as int) as char] + key[1..];
      }
    }
  }

  /** A successful `put` adds its key to the key set; a failed one leaves
      the key set as it was. */
  lemma PutKeys<V>(n: Node<V>, key: string, value: V)
    requires Wf(n) && |key| > 0
    ensures Wf(PutFrom(n, key, value).0)
    ensures Keys(PutFrom(n, key, value).0) ==
      if PutFrom(n, key, value).1.Success? then Keys(n) + {key} else Keys(n)
  {
    var (m, r) := PutFrom(n, key, value);
    PutWf(n, key, value);
    forall k ensures k in Keys(m) <==> k in (if r.Success? then Keys(n) + {key} else Keys(n)) {
      KeysFind(m, k);
      KeysFind(n, k);
      PutFinds(n, key, value, k);
    }
  }

  /** Erasing a key takes exactly that key out of the key set. */
  lemma EraseKeys<V>(n: Node<V>, key: string)
    requires Wf(n)
    ensures Wf(Erase(n, key)) && Keys(Erase(n, key)) == Keys(n) - {key}
  {
    EraseFinds(n, key, key);
    forall k ensures k in Keys(Erase(n, key)) <==> k in Keys(n) - {key} {
      KeysFind(Erase(n, key), k);
      KeysFind(n, k);
      EraseFinds(n, key, k);
    }
  }

  /** `put` on a key that already has a value leaves the number of keys as
      it was, although `put` adds one to `size`. */
  lemma OverwriteCountedTwice<V>(n: Node<V>, key: string, value: V)
    requires Wf(n) && |key| > 0 && Find(n, key).Some?
    ensures Wf(PutFrom(n, key, value).0)
    ensures PutFrom(n, key, value).1 == Success(Find(n, key))
    ensures |Keys(PutFrom(n, key, value).0)| == |Keys(n)|
  {
    FoundLetters(n, key);
    PutReturns(n, key, value);
    PutKeys(n, key, value);
    KeysFind(n, key);
    assert Keys(n) + {key} == Keys(n);
  }

  /** The number of keys grows by one exactly when `put` stores a key
      that had no value. */
  lemma PutCount<V>(n: Node<V>, key: string, value: V)
    requires Wf(n) && |key| > 0
    ensures Wf(PutFrom(n, key, value).0)
    ensures |Keys(PutFrom(n, key, value).0)| ==
      |Keys(n)| + (if PutFrom(n, key, value).1 == Success(None) then 1 else 0)
  {
    PutKeys(n, key, value);
    PutReturns(n, key, value);
    KeysFind(n, key);
    AddOne(Keys(n), key);
  }

  lemma AddOne(s: set<string>, x: string)
    ensures |s + {x}| == |s| + (if x in s then 0 else 1)
  {
    if x in s {
      assert s + {x} == s;
    }
  }

  /** Erasing a key that has a value removes one key. */
  lemma EraseCount<V>(n: Node<V>, key: string)
    requires Wf(n) && Find(n, key).Some?
    ensures Wf(Erase(n, key)) && |Keys(Erase(n, key))| == |Keys(n)| - 1
  {
    EraseKeys(n, key);
    KeysFind(n, key);
    assert Keys(n) == Keys(Erase(n, key)) + {key};
  }

  /** A node holds `v` exactly when some key maps to `v`. */
  lemma {:induction false} HoldsFind<V>(n: Node<V>, v: V)
    requires Wf(n)
    ensures Holds(n, v) <==> exists key :: Find(n, key) == Some(v)
    decreases n
  {
    if Holds(n, v) {
      if n.value != Some(v) {
        var i :| 0 <= i < BRANCH_FACTOR && n.children.slots[i].Child? && Holds(n.children.slots[i].node, v);
        var c := n.children.slots[i].node;
        HoldsFind(c, v);
        var k :| Find(c, k) == Some(v);
        var key := [(i + 'a' as int) as char] + k;
        assert key[1..] == k;
        assert Find(n, key) == Some(v);
      } else {
        assert Find(n, []) == Some(v);
      }
    }
    if exists key :: Find(n, key) == Some(v) {
      var key :| Find(n, key) == Some(v);
      FoundHolds(n, v, key);
    }
  }

  lemma {:induction false} FoundHolds<V>(n: Node<V>, v: V, key: string)
    requires Wf(n) && Find(n, key) == Some(v)
    ensures Holds(n, v)
    decreases |key|
  {
    if |key| > 0 {
      var x := Index(key[0]);
      FoundHolds(n.children.slots[x].node, v, key[1..]);
    }
  }

  // ---------------------------------------------------------------------
  // Breadth-first search over a queue of nodes

  ghost function Weight<V>(q: seq<Node<V>>): nat
  {
    if |q| == 0 then 0 else Size(q[0]) + Weight(q[1..])
  }

  lemma {:induction false} WeightPush<V>(q: seq<Node<V>>, n: Node<V>)
    ensures Weight(q + [n]) == Weight(q) + Size(n)
    decreases |q|
  {
    if |q| > 0 {
      assert (q + [n])[1..] == q[1..] + [n];
      WeightPush(q[1..], n);
    }
  }

  ghost predicate AllWf<V>(q: seq<Node<V>>)
  {
    forall j :: 0 <= j < |q| ==> Wf(q[j])
  }

  ghost predicate AnyHolds<V>(q: seq<Node<V>>, v: V)
    requires AllWf(q)
  {
    exists j :: 0 <= j < |q| && Holds(q[j], v)
  }

  /** Some child among the first `j` cells of `n` holds `v`. */
  ghost predicate KidHolds<V>(n: Node<V>, j: int, v: V)
    requires Wf(n) && n.children.Array? && 0 <= j <= BRANCH_FACTOR
  {
    exists i :: 0 <= i < j && n.children.slots[i].Child? && Holds(n.children.slots[i].node, v)
  }

  lemma HoldsPush<V>(q: seq<Node<V>>, n: Node<V>, v: V)
    requires AllWf(q) && Wf(n)
    ensures AllWf(q + [n])
    ensures AnyHolds(q + [n], v) <==> AnyHolds(q, v) || Holds(n, v)
  {
    assert (q + [n])[|q|] == n;
    forall m | 0 <= m < |q| ensures (q + [n])[m] == q[m] { }
  }

  /** The inner loop of `containsValue`: appends the children of `x` to
      the queue, in the order of their cells. */
  method EnqueueChildren<V>(queue: seq<Node<V>>, x: Node<V>, ghost v: V) returns (queue': seq<Node<V>>)
    requires AllWf(queue) && Wf(x) && x.children.Array?
    ensures AllWf(queue')
    ensures Weight(queue') == Weight(queue) + Size(x) - 1
    ensures AnyHolds(queue', v) <==> AnyHolds(queue, v) || KidHolds(x, BRANCH_FACTOR, v)
  {
    var slots := x.children.slots;
    queue' := queue;
    var j := 0;
    while j < |slots|
      invariant 0 <= j <= |slots| && AllWf(queue')
      invariant Weight(queue') == Weight(queue) + KidsSize(x, j)
      invariant AnyHolds(queue', v) <==> AnyHolds(queue, v) || KidHolds(x, j, v)
    {
      if slots[j].Child? {
        WeightPush(queue', slots[j].node);
        HoldsPush(queue', slots[j].node, v);
        queue' := queue' + [slots[j].node];
      }
      j := j + 1;
    }
  }

  /** The cells of a children array that hold a node. */
  ghost function Occupied<V>(n: Node<V>): set<int>
    requires n.children.Array?
  {
    set i | 0 <= i < |n.children.slots| && n.children.slots[i].Child?
  }

  /** `numChildren`: the number of non-null cells of a children array. */
  method NumChildren<V>(n: Node<V>) returns (count: int)
    requires n.children.Array?
    ensures count == |Occupied(n)|
  {
    var slots := n.children.slots;
    count := 0;
    var i := 0;
    while i < |slots|
      invariant 0 <= i <= |slots|
      invariant count == |set j | 0 <= j < i && slots[j].Child?|
    {
      ghost var before := set j | 0 <= j < i && slots[j].Child?;
      if slots[i].Child? {
        assert (set j | 0 <= j < i + 1 && slots[j].Child?) == before + {i};
        count := count + 1;
      } else {
        assert (set j | 0 <= j < i + 1 && slots[j].Child?) == before;
      }
      i := i + 1;
    }
    assert Occupied(n) == set j | 0 <= j < |slots| && slots[j].Child?;
  }

  /** The validation loop shared by `put`, `get`, `containsKey` and `remove`:
      it converts the FIRST character once per character of the key, so it
      rejects only a key whose first character is not a letter. */
  method CheckFirst(key: string) returns (ok: bool)
    ensures ok <==> |key| == 0 || IsLetter(key[0])
  {
    var i := 0;
    while i < |key|
      invariant 0 <= i <= |key|
      invariant i > 0 ==> IsLetter(key[0])
    {
      var x := ConvertToIndex(key[0]);
      if x.Failure? {
        return false;
      }
      i := i + 1;
    }
    return true;
  }

  // ---------------------------------------------------------------------
  // The map

  class TrieMap<V(==)> {
    var root: Node<V>
    var size: int

    ghost predicate Valid()
      reads this
    {
      Wf(root)
    }

    /** `size` counts the keys that have a value. */
    ghost predicate Counted()
      reads this
      requires Valid()
    {
      size == |Keys(root)|
    }

    /** `size()`: the counter, which is the number of keys while `size`
        is kept counted. */
    function Size(): (n: int)
      reads this
      requires Valid()
      ensures Counted() ==> n == |Keys(root)|
    {
      size
    }

    /** An empty map: the root's children array is not yet allocated. */
    constructor ()
      ensures Valid() && Counted()
      ensures root == Node(Null, None) && size == 0
    {
      root := Node(Null, None);
      size := 0;
      new;
      assert Keys(root) == {};
    }

    /** The walk of `put` for a non-empty key, which writes `value` and
        returns the old value; it stops with IllegalArgumentException at the
        first character that is not a letter. */
    method Plant(key: string, value: V) returns (r: Result<Option<V>>)
      requires Valid() && |key| > 0
      modifies this
      ensures Valid() && size == old(size)
      ensures root == PutFrom(old(root), key, value).0 && r == PutFrom(old(root), key, value).1
    {
      ghost var start := root;
      PutWf(start, key, value);
      var walker := root;
      var frames: seq<Frame<V>> := [];
      var i := 0;
      assert key[0..] == key;
      while i < |key| - 1
        invariant root == start && size == old(size)
        invariant Planting(frames, walker, key, i, value, start)
      {
        var x := ConvertToIndex(key[i]);
        if x.Failure? {
          PlantStops(frames, walker, key, i, value, start);
          root := Plug(frames, walker);
          return Failure(IllegalArgument);
        }
        var parent := if walker.children.Null? then Node(Array(Blank()), walker.value) else walker;
        var child := if parent.children.slots[x.value].Child? then parent.children.slots[x.value].node else Node(Null, None);
        PlantStep(frames, walker, key, i, value, start);
        assert parent == Opened(walker) && child == ChildOrLeaf(parent, x.value);
        frames := frames + [Frame(parent, x.value)];
        walker := child;
        i := i + 1;
      }
      var x := ConvertToIndex(key[i]);
      if x.Failure? {
        PlantStops(frames, walker, key, i, value, start);
        root := Plug(frames, walker);
        return Failure(IllegalArgument);
      }
      var parent := if walker.children.Null? then Node(Array(Blank()), walker.value) else walker;
      var child := if parent.children.slots[x.value].Child? then parent.children.slots[x.value].node else Node(Null, None);
      PlantLast(frames, walker, key, i, value, start);
      assert parent == Opened(walker) && child == ChildOrLeaf(parent, x.value);
      root := Plug(frames + [Frame(parent, x.value)], child.(value := Some(value)));
      return Success(child.value);
    }

    /** `put`, as written: `size` grows on every successful call, also when
        the key already had a value. */
    method Put(key: Option<string>, value: Option<V>) returns (r: Result<Option<V>>)
      requires Valid()
      modifies this
      ensures Valid()
      ensures key.None? || value.None? ==> r == Failure(IllegalArgument) && root == old(root) && size == old(size)
      ensures key.Some? && value.Some? && |key.value| == 0 ==>
        r == Success(None) && root == old(root) && size == old(size)
      ensures key.Some? && value.Some? && |key.value| > 0 ==>
        (root, r) == PutFrom(old(root), key.value, value.value) &&
        size == old(size) + (if r.Success? then 1 else 0)
    {
      if key.None? || value.None? {
        return Failure(IllegalArgument);
      }
      var ok := CheckFirst(key.value);
      if !ok {
        return Failure(IllegalArgument);
      }
      if |key.value| == 0 {
        return Success(None);
      }
      r := Plant(key.value, value.value);
      if r.Success? {
        size := size + 1;
      }
    }

    /** `put` counting only keys that had no value, which keeps `size` equal
        to the number of keys. */
    method PutCounted(key: Option<string>, value: Option<V>) returns (r: Result<Option<V>>)
      requires Valid()
      modifies this
      ensures Valid() && (old(Counted()) ==> Counted())
      ensures key.None? || value.None? ==> r == Failure(IllegalArgument) && root == old(root) && size == old(size)
      ensures key.Some? && value.Some? && |key.value| == 0 ==>
        r == Success(None) && root == old(root) && size == old(size)
      ensures key.Some? && value.Some? && |key.value| > 0 ==>
        (root, r) == PutFrom(old(root), key.value, value.value) &&
        size == old(size) + (if r == Success(None) then 1 else 0)
    {
      if key.None? || value.None? {
        return Failure(IllegalArgument);
      }
      var ok := CheckFirst(key.value);
      if !ok {
        return Failure(IllegalArgument);
      }
      if |key.value| == 0 {
        return Success(None);
      }
      PutCount(root, key.value, value.value);
      r := Plant(key.value, value.value);
      if r == Success(None) {
        size := size + 1;
      }
    }

    /** `get`, as written. */
    method Get(key: Option<string>) returns (r: Result<Option<V>>)
      requires Valid()
      ensures key.None? ==> r == Failure(IllegalArgument)
      ensures key.Some? && |key.value| == 0 ==> r == Success(None)
      ensures key.Some? && |key.value| > 0 ==> r == GetFrom(root, key.value)
    {
      if key.None? {
        return Failure(IllegalArgument);
      }
      var k := key.value;
      var ok := CheckFirst(k);
      if !ok {
        return Failure(IllegalArgument);
      }
      if |k| == 0 {
        return Success(None);
      }
      var walker := root;
      var i := 0;
      while i < |k| - 1
        invariant 0 <= i <= |k| - 1
        invariant Wf(walker) && GetFrom(walker, k[i..]) == GetFrom(root, k)
      {
        assert k[i..][1..] == k[i + 1..];
        var x := ConvertToIndex(k[i]);
        if x.Failure? {
          return Failure(IllegalArgument);
        }
        if walker.children.Null? {
          return Failure(NullPointer);
        }
        if walker.children.slots[x.value].Empty? {
          return Success(None);
        }
        walker := walker.children.slots[x.value].node;
        i := i + 1;
      }
      var x := ConvertToIndex(k[i]);
      if x.Failure? {
        return Failure(IllegalArgument);
      }
      if walker.children.Null? || walker.children.slots[x.value].Empty? {
        return Failure(NullPointer);
      }
      return Success(walker.children.slots[x.value].node.value);
    }

    /** `get` with the last child tested for null: it never throws for a key
        of letters, and returns the key's value or `null`. */
    method GetChecked(key: Option<string>) returns (r: Result<Option<V>>)
      requires Valid()
      ensures key.None? ==> r == Failure(IllegalArgument)
      ensures key.Some? && |key.value| == 0 ==> r == Success(None)
      ensures key.Some? && |key.value| > 0 ==>
        (r.Success? ==> r.value == Find(root, key.value)) &&
        (r.Failure? ==> r == Failure(IllegalArgument) && !Letters(key.value)) &&
        (Letters(key.value) ==> r.Success?)
    {
      if key.None? {
        return Failure(IllegalArgument);
      }
      var k := key.value;
      var ok := CheckFirst(k);
      if !ok {
        return Failure(IllegalArgument);
      }
      if |k| == 0 {
        return Success(None);
      }
      var walker := root;
      var i := 0;
      while i < |k| - 1
        invariant 0 <= i <= |k| - 1
        invariant Wf(walker) && Find(walker, k[i..]) == Find(root, k)
        invariant Letters(k[..i])
      {
        assert k[i..][1..] == k[i + 1..];
        var x := ConvertToIndex(k[i]);
        if x.Failure? {
          return Failure(IllegalArgument);
        }
        if walker.children.Null? || walker.children.slots[x.value].Empty? {
          return Success(None);
        }
        walker := walker.children.slots[x.value].node;
        assert k[..i + 1] == k[..i] + [k[i]];
        i := i + 1;
      }
      var x := ConvertToIndex(k[i]);
      if x.Failure? {
        return Failure(IllegalArgument);
      }
      assert k == k[..i] + [k[i]];
      if walker.children.Null? || walker.children.slots[x.value].Empty? {
        return Success(None);
      }
      return Success(walker.children.slots[x.value].node.value);
    }

    /** `containsKey`, as written: the same walk as `get`, with the same
        exceptions, answering whether the value it finds is non-null. */
    method ContainsKey(key: Option<string>) returns (r: Result<bool>)
      requires Valid()
      ensures key.None? ==> r == Failure(IllegalArgument)
      ensures key.Some? && |key.value| == 0 ==> r == Success(false)
      ensures key.Some? && |key.value| > 0 ==>
        (GetFrom(root, key.value).Success? ==> r == Success(GetFrom(root, key.value).value.Some?)) &&
        (GetFrom(root, key.value).Failure? ==> r == Failure(GetFrom(root, key.value).error))
    {
      if key.None? {
        return Failure(IllegalArgument);
      }
      var k := key.value;
      var ok := CheckFirst(k);
      if !ok {
        return Failure(IllegalArgument);
      }
      if |k| == 0 {
        return Success(false);
      }
      var walker := root;
      var i := 0;
      while i < |k| - 1
        invariant 0 <= i <= |k| - 1
        invariant Wf(walker) && GetFrom(walker, k[i..]) == GetFrom(root, k)
      {
        assert k[i..][1..] == k[i + 1..];
        var x := ConvertToIndex(k[i]);
        if x.Failure? {
          return Failure(IllegalArgument);
        }
        if walker.children.Null? {
          return Failure(NullPointer);
        }
        if walker.children.slots[x.value].Empty? {
          return Success(false);
        }
        walker := walker.children.slots[x.value].node;
        i := i + 1;
      }
      var x := ConvertToIndex(k[i]);
      if x.Failure? {
        return Failure(IllegalArgument);
      }
      if walker.children.Null? || walker.children.slots[x.value].Empty? {
        return Failure(NullPointer);
      }
      return Success(walker.children.slots[x.value].node.value.Some?);
    }

    /** `containsKey` with the last child tested for null: it never throws
        for a key of letters, and answers whether the key has a value. */
    method ContainsKeyChecked(key: Option<string>) returns (r: Result<bool>)
      requires Valid()
      ensures key.None? ==> r == Failure(IllegalArgument)
      ensures key.Some? && |key.value| == 0 ==> r == Success(false)
      ensures key.Some? && |key.value| > 0 ==>
        (r.Success? ==> (r.value <==> Find(root, key.value).Some?)) &&
        (r.Failure? ==> r == Failure(IllegalArgument) && !Letters(key.value)) &&
        (Letters(key.value) ==> r.Success?)
    {
      var found := GetChecked(key);
      if found.Failure? {
        return Failure(found.error);
      }
      return Success(found.value.Some?);
    }

    /** `containsValue`: a breadth-first search of the nodes for one whose
        value equals `value`. */
    method ContainsValue(value: Option<V>) returns (r: Result<bool>)
      requires Valid()
      ensures value.None? ==> r == Failure(IllegalArgument)
      ensures value.Some? ==> r == Success(Holds(root, value.value))
    {
      if value.None? {
        return Failure(IllegalArgument);
      }
      var v := value.value;
      var queue := [root];
      assert queue[0] == root;
      while |queue| > 0
        invariant AllWf(queue)
        invariant Holds(root, v) <==> AnyHolds(queue, v)
        decreases Weight(queue)
      {
        var x := queue[0];
        assert AnyHolds(queue, v) <==> Holds(x, v) || AnyHolds(queue[1..], v) by {
          forall j | 0 <= j < |queue| - 1 ensures queue[1..][j] == queue[j + 1] { }
        }
        queue := queue[1..];
        if x.value.None? || x.value.value != v {
          if x.children.Null? {
            continue;
          }
          queue := EnqueueChildren(queue, x, v);
        } else {
          return Success(true);
        }
      }
      return Success(false);
    }

    /** The walk of `remove` for a key that has a value: it clears that
        value and returns it. The branch that would cut a childless node off
        the trie tests the children of the node ABOVE the one that holds the
        key, which has that node as a child, so it is never taken. */
    method Unplant(key: string) returns (ans: Option<V>)
      requires Valid() && |key| > 0 && Find(root, key).Some?
      modifies this
      ensures Valid()
      ensures root == Erase(old(root), key) && size == old(size)
      ensures ans == Find(old(root), key)
    {
      ghost var start := root;
      FoundLetters(start, key);
      EraseFinds(start, key, key);
      var walker := root;
      var frames: seq<Frame<V>> := [];
      var dontDelete := 0;   // the depth of the last node to keep
      var firstDelete := 0;  // the cell below it that would be cut
      var i := 0;
      while i < |key| - 1
        invariant 0 <= i <= |key| - 1 && root == start && size == old(size)
        invariant Wf(walker) && Hooked(frames)
        invariant Find(walker, key[i..]) == Find(start, key)
        invariant Plug(frames, Erase(walker, key[i..])) == Erase(start, key)
      {
        assert key[i..][1..] == key[i + 1..];
        assert IsLetter(key[i]);
        var x := ConvertToIndex(key[i]).value;
        var count := NumChildren(walker);
        var child := walker.children.slots[x].node;
        if count > 1 || child.value.Some? {
          dontDelete := i;
          firstDelete := x;
        }
        PlugPush(frames, Frame(walker, x), Erase(child, key[i + 1..]));
        frames := frames + [Frame(walker, x)];
        walker := child;
        i := i + 1;
      }
      assert IsLetter(key[i]);
      var x := ConvertToIndex(key[i]).value;
      var child := walker.children.slots[x].node;
      var count := NumChildren(walker);
      assert x in Occupied(walker);
      if count == 0 {
        assert false;
      }
      PlugPush(frames, Frame(walker, x), child.(value := None));
      root := Plug(frames + [Frame(walker, x)], child.(value := None));
      return child.value;
    }

    /** `remove`, as written. It first asks `containsKey`, whose exceptions
        it passes on, and then only clears the key's value. */
    method Remove(key: Option<string>) returns (r: Result<Option<V>>)
      requires Valid()
      modifies this
      ensures Valid() && (old(Counted()) ==> Counted())
      ensures key.None? ==> r == Failure(IllegalArgument) && root == old(root) && size == old(size)
      ensures key.Some? && |key.value| == 0 ==> r == Success(None) && root == old(root) && size == old(size)
      ensures key.Some? && |key.value| > 0 ==>
        var g := GetFrom(old(root), key.value);
        (g.Failure? ==> r == g && root == old(root) && size == old(size)) &&
        (g == Success(None) ==> r == g && root == old(root) && size == old(size)) &&
        (g.Success? && g.value.Some? ==>
          r == g && root == Erase(old(root), key.value) && size == old(size) - 1)
    {
      if key.None? {
        return Failure(IllegalArgument);
      }
      var ok := CheckFirst(key.value);
      if !ok {
        return Failure(IllegalArgument);
      }
      var found := ContainsKey(key);
      if found.Failure? {
        return Failure(found.error);
      }
      if !found.value {
        return Success(None);
      }
      GetFinds(root, key.value);
      EraseCount(root, key.value);
      var ans := Unplant(key.value);
      size := size - 1;
      return Success(ans);
    }

    /** `clear`: a new root whose children array is allocated. */
    method Clear()
      requires Valid()
      modifies this
      ensures Valid() && Counted()
      ensures root == Node(Array(Blank()), None) && size == 0
      ensures forall k :: Find(root, k) == None
    {
      root := Node(Array(Blank()), None);
      size := 0;
      assert Keys(root) == {};
    }
  }
}
