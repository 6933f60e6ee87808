/** A separately chained hash map with a power-of-two table of buckets that is
    rehashed into a table twice as large when the size reaches the threshold
    (capacity times load factor).  Each bucket's linked chain of entries is
    modelled as the sequence of its entries from head to tail, and the mapping
    the table represents is the ghost field `contents`; a `null` key is `None`. */
module HashMaps {
  import opened Wrappers

  const DEFAULT_INITIAL_CAPACITY := 16
  const MAXIMUM_CAPACITY := 0x4000_0000
  const DEFAULT_LOAD_FACTOR: real := 0.75
  const MAX_INT := 0x7fff_ffff

  /** A key as Java passes it: `None` is the `null` key. */
  type Key<K> = Option<K>

  /** One entry of a bucket's chain. */
  datatype Entry<K, V> = Entry(key: Key<K>, value: V)

  predicate IsPowerOfTwo(n: int)
    decreases n
  {
    n == 1 || (n >= 2 && n % 2 == 0 && IsPowerOfTwo(n / 2))
  }

  /** A legal number of buckets. */
  predicate Capacity(n: int)
  {
    1 <= n <= MAXIMUM_CAPACITY && IsPowerOfTwo(n)
  }

  function Pow2(e: nat): nat
  {
    if e == 0 then 1 else 2 * Pow2(e - 1)
  }

  lemma {:induction false} Pow2IsPowerOfTwo(e: nat)
    ensures IsPowerOfTwo(Pow2(e))
  {
    if e > 0 {
      Pow2IsPowerOfTwo(e - 1);
      assert Pow2(e) / 2 == Pow2(e - 1);
    }
  }

  lemma MaximumIsPowerOfTwo()
    ensures IsPowerOfTwo(MAXIMUM_CAPACITY)
  {
    assert Pow2(10) == 0x400;
    assert Pow2(20) == 0x10_0000;
    assert Pow2(30) == MAXIMUM_CAPACITY;
    Pow2IsPowerOfTwo(30);
  }

  lemma DefaultIsPowerOfTwo()
    ensures IsPowerOfTwo(DEFAULT_INITIAL_CAPACITY)
  {
    assert Pow2(4) == DEFAULT_INITIAL_CAPACITY;
    Pow2IsPowerOfTwo(4);
  }

  lemma CapacityGap(length: int)
    requires Capacity(length) && length < MAXIMUM_CAPACITY
    ensures 2 * length <= MAXIMUM_CAPACITY
  {
    MaximumIsPowerOfTwo();
    PowerOfTwoGap(length, MAXIMUM_CAPACITY);
  }

  /** Doubling a capacity in Java's `int` arithmetic: below 2^30 it gives the
      next power of two, at 2^30 it overflows to a negative number. */
  lemma Doubled(length: int)
    requires Capacity(length)
    ensures length < MAXIMUM_CAPACITY ==> Wrap32(length * 2) == 2 * length && Capacity(2 * length)
    ensures length == MAXIMUM_CAPACITY ==> Wrap32(length * 2) < 0
  {
    if length < MAXIMUM_CAPACITY {
      MaximumIsPowerOfTwo();
      PowerOfTwoGap(length, MAXIMUM_CAPACITY);
      assert (2 * length) / 2 == length;
    }
  }

  /** A power of two below another power of two is at most half of it. */
  lemma {:induction false} PowerOfTwoGap(p: int, q: int)
    requires IsPowerOfTwo(p) && IsPowerOfTwo(q) && p < q
    ensures 2 * p <= q
    decreases q
  {
    if p > 1 {
      PowerOfTwoGap(p / 2, q / 2);
    }
  }

  /** The smallest power of two at or above `n`. */
  ghost function CapacityFor(n: int): int
    decreases n
  {
    if n <= 1 then 1 else 2 * CapacityFor((n + 1) / 2)
  }

  /** A power of two `c` at or above `n` whose half is below `n` is
      `CapacityFor(n)`, and no smaller power of two reaches `n`. */
  lemma {:induction false} SmallestPowerOfTwo(n: int, c: int)
    requires 1 <= n && IsPowerOfTwo(c) && n <= c && (c == 1 || c / 2 < n)
    ensures c == CapacityFor(n)
    ensures forall p :: IsPowerOfTwo(p) && p < c ==> p < n
    decreases c
  {
    if c > 1 {
      SmallestPowerOfTwo((n + 1) / 2, c / 2);
      forall p | IsPowerOfTwo(p) && p < c
        ensures p < n
      {
        if p >= n {
          PowerOfTwoGap(p, c);
        }
      }
    }
  }

  /** Java's `int` arithmetic: the two's-complement value of `x` in 32 bits. */
  function Wrap32(x: int): (r: int)
    ensures -0x8000_0000 <= r <= MAX_INT
    ensures -0x8000_0000 <= x <= MAX_INT ==> r == x
  {
    (x + 0x8000_0000) % 0x1_0000_0000 - 0x8000_0000
  }

  /** `(int) (capacity * loadFactor)`: the product truncated toward zero and
      saturated at `Integer.MAX_VALUE`. */
  function ThresholdFor(capacity: int, loadFactor: real): (t: int)
    requires capacity >= 0 && loadFactor > 0.0
    ensures 0 <= t <= MAX_INT
    ensures t == MAX_INT || (t as real <= capacity as real * loadFactor < t as real + 1.0)
    ensures capacity as real * loadFactor >= MAX_INT as real ==> t == MAX_INT
  {
    var f := capacity as real * loadFactor;
    if f >= MAX_INT as real then MAX_INT else f.Floor
  }

  /** The 32-bit pattern of a hash code. */
  function Bits(h: int): bv32
  {
    (h % 0x1_0000_0000) as bv32
  }

  /** The supplemental hash that spreads high bits downwards. */
  function Spread(h: bv32): bv32
  {
    var a := h ^ ((h >> 20) ^ (h >> 12));
    a ^ ((a >> 7) ^ (a >> 4))
  }

  /** `hash(h, length)`: the spread hash code masked to a bucket index.  For a
      power-of-two `length`, masking with `length - 1` keeps the low bits of
      the unsigned value, which is its remainder modulo `length`. */
  function Hash(h: int, length: int): (r: int)
    requires Capacity(length)
    ensures 0 <= r < length
  {
    (Spread(Bits(h)) as int) % length
  }

  /** The bucket of a key: `null` always lives in bucket 0. */
  function IndexFor<K>(hashCode: K -> int, key: Key<K>, length: int): (r: int)
    requires Capacity(length)
    ensures 0 <= r < length
    ensures key.None? ==> r == 0
  {
    if key.None? then 0 else Hash(hashCode(key.value), length)
  }

  /** The position of the first entry of `chain` with key `key`, or -1. */
  function KeyPos<K(==,!new), V>(chain: seq<Entry<K, V>>, key: Key<K>): (r: int)
    ensures -1 <= r < |chain|
    ensures r >= 0 ==> chain[r].key == key && forall m :: 0 <= m < r ==> chain[m].key != key
    ensures r == -1 <==> forall m :: 0 <= m < |chain| ==> chain[m].key != key
  {
    if |chain| == 0 then -1
    else if chain[0].key == key then 0
    else
      var p := KeyPos(chain[1..], key);
      if p < 0 then -1 else p + 1
  }

  /** The bucket of every key under a table of `length` buckets. */
  function BucketOf<K(!new)>(hashCode: K -> int, length: int): (bucket: Key<K> -> int)
    requires Capacity(length)
    ensures forall k :: bucket(k) == IndexFor(hashCode, k, length)
    ensures forall k :: 0 <= bucket(k) < length
  {
    k => IndexFor(hashCode, k, length)
  }

  /** Every entry sits in its key's bucket and agrees with `m`. */
  ghost predicate EntriesMapped<K(!new), V>(bucket: Key<K> -> int, buckets: seq<seq<Entry<K, V>>>, m: map<Key<K>, V>)
  {
    forall i, j :: 0 <= i < |buckets| && 0 <= j < |buckets[i]| ==>
      && bucket(buckets[i][j].key) == i
      && buckets[i][j].key in m
      && m[buckets[i][j].key] == buckets[i][j].value
  }

  /** No key occurs twice in a chain. */
  ghost predicate ChainsDistinct<K(!new), V>(buckets: seq<seq<Entry<K, V>>>)
  {
    forall i, j, n :: 0 <= i < |buckets| && 0 <= j < n < |buckets[i]| ==>
      buckets[i][j].key != buckets[i][n].key
  }

  /** Every key of `m` occurs in the chain of its bucket. */
  ghost predicate KeysPlaced<K(!new), V>(bucket: Key<K> -> int, buckets: seq<seq<Entry<K, V>>>, m: map<Key<K>, V>)
    requires forall k :: 0 <= bucket(k) < |buckets|
  {
    forall k {:trigger KeyPos(buckets[bucket(k)], k)} :: k in m ==> KeyPos(buckets[bucket(k)], k) >= 0
  }

  /** The chains `buckets`, with keys placed by `bucket`, hold exactly the
      mapping `m`. */
  ghost predicate WellPlaced<K(!new), V>(bucket: Key<K> -> int, buckets: seq<seq<Entry<K, V>>>, m: map<Key<K>, V>)
  {
    && (forall k :: 0 <= bucket(k) < |buckets|)
    && EntriesMapped(bucket, buckets, m)
    && ChainsDistinct(buckets)
    && KeysPlaced(bucket, buckets, m)
  }

  /** A key is mapped exactly when it occurs in the chain of its bucket, and
      then with the value of that entry. */
  lemma Located<K(!new), V>(bucket: Key<K> -> int, buckets: seq<seq<Entry<K, V>>>, m: map<Key<K>, V>, key: Key<K>)
    requires WellPlaced(bucket, buckets, m)
    ensures var chain := buckets[bucket(key)];
      && (key in m <==> KeyPos(chain, key) >= 0)
      && (key in m ==> m[key] == chain[KeyPos(chain, key)].value)
  {
  }

  /** A value is mapped exactly when some entry of some chain holds it. */
  lemma ValueLocated<K(!new), V>(bucket: Key<K> -> int, buckets: seq<seq<Entry<K, V>>>, m: map<Key<K>, V>, value: V)
    requires WellPlaced(bucket, buckets, m)
    ensures (exists k :: k in m && m[k] == value) <==>
            (exists x, n :: 0 <= x < |buckets| && 0 <= n < |buckets[x]| && buckets[x][n].value == value)
  {
    if k :| k in m && m[k] == value {
      var x := bucket(k);
      var n := KeyPos(buckets[x], k);
      assert buckets[x][n].value == value;
    }
    if x, n :| 0 <= x < |buckets| && 0 <= n < |buckets[x]| && buckets[x][n].value == value {
      assert buckets[x][n].key in m;
    }
  }

  /** Linking a new entry at the head of its key's chain adds it to the mapping. */
  lemma PlacedInsert<K(!new), V>(bucket: Key<K> -> int, buckets: seq<seq<Entry<K, V>>>, m: map<Key<K>, V>, key: Key<K>, value: V)
    requires WellPlaced(bucket, buckets, m) && key !in m
    ensures var i := bucket(key);
      WellPlaced(bucket, buckets[i := [Entry(key, value)] + buckets[i]], m[key := value])
  {
    var i := bucket(key);
    var b: seq<seq<Entry<K, V>>> := buckets[i := [Entry(key, value)] + buckets[i]];
    var m' := m[key := value];
    forall x, n | 0 <= x < |b| && 0 <= n < |b[x]|
      ensures && bucket(b[x][n].key) == x
              && b[x][n].key in m'
              && m'[b[x][n].key] == b[x][n].value
    {
      if x == i && n > 0 {
        assert b[x][n] == buckets[x][n - 1];
      } else if x != i {
        assert b[x][n] == buckets[x][n];
      }
    }
    assert EntriesMapped(bucket, b, m');
    forall k | k in m'
      ensures KeyPos(b[bucket(k)], k) >= 0
    {
      if k != key {
        var c := bucket(k);
        var p := KeyPos(buckets[c], k);
        if c == i {
          assert b[c][p + 1].key == k;
        } else {
          assert b[c][p].key == k;
        }
      }
    }
    assert KeysPlaced(bucket, b, m');
    forall x, j, n | 0 <= x < |b| && 0 <= j < n < |b[x]|
      ensures b[x][j].key != b[x][n].key
    {
      if x == i && j > 0 {
        assert b[x][j] == buckets[i][j - 1] && b[x][n] == buckets[i][n - 1];
      } else if x == i {
        assert b[x][n] == buckets[i][n - 1];
      } else {
        assert b[x][j] == buckets[x][j] && b[x][n] == buckets[x][n];
      }
    }
    assert ChainsDistinct(b);
  }

  /** Overwriting the value of the entry for `buckets[i][j].key` updates the mapping. */
  lemma PlacedReplace<K(!new), V>(bucket: Key<K> -> int, buckets: seq<seq<Entry<K, V>>>, m: map<Key<K>, V>, i: int, j: int, value: V)
    requires WellPlaced(bucket, buckets, m)
    requires 0 <= i < |buckets| && 0 <= j < |buckets[i]|
    ensures var key := buckets[i][j].key;
      WellPlaced(bucket, buckets[i := buckets[i][j := Entry(key, value)]], m[key := value])
  {
    var key := buckets[i][j].key;
    var b: seq<seq<Entry<K, V>>> := buckets[i := buckets[i][j := Entry(key, value)]];
    var m' := m[key := value];
    forall x, n | 0 <= x < |b| && 0 <= n < |b[x]|
      ensures && bucket(b[x][n].key) == x
              && b[x][n].key in m'
              && m'[b[x][n].key] == b[x][n].value
    {
      if x != i || n != j {
        assert b[x][n] == buckets[x][n];
      }
    }
    assert EntriesMapped(bucket, b, m');
    forall k | k in m'
      ensures KeyPos(b[bucket(k)], k) >= 0
    {
      var c := bucket(k);
      var p := KeyPos(buckets[c], k);
      assert b[c][p].key == k;
    }
    assert KeysPlaced(bucket, b, m');
    forall x, u, n | 0 <= x < |b| && 0 <= u < n < |b[x]|
      ensures b[x][u].key != b[x][n].key
    {
      assert b[x][u].key == buckets[x][u].key && b[x][n].key == buckets[x][n].key;
    }
    assert ChainsDistinct(b);
  }

  /** Chain `i` with entry `j` unlinked. */
  function Unlinked<K(!new), V>(buckets: seq<seq<Entry<K, V>>>, i: int, j: int): (b: seq<seq<Entry<K, V>>>)
    requires 0 <= i < |buckets| && 0 <= j < |buckets[i]|
    ensures |b| == |buckets| && |b[i]| == |buckets[i]| - 1
    ensures forall x :: 0 <= x < |b| && x != i ==> b[x] == buckets[x]
    ensures forall n :: 0 <= n < |b[i]| ==> b[i][n] == buckets[i][if n < j then n else n + 1]
  {
    buckets[i := buckets[i][..j] + buckets[i][j + 1..]]
  }

  /** Unlinking entry `j` of chain `i` removes its key from the mapping. */
  lemma PlacedRemove<K(!new), V>(bucket: Key<K> -> int, buckets: seq<seq<Entry<K, V>>>, m: map<Key<K>, V>, i: int, j: int)
    requires WellPlaced(bucket, buckets, m)
    requires 0 <= i < |buckets| && 0 <= j < |buckets[i]|
    ensures buckets[i][j].key in m
    ensures WellPlaced(bucket, Unlinked(buckets, i, j), m - {buckets[i][j].key})
    ensures |m - {buckets[i][j].key}| == |m| - 1
  {
    var key := buckets[i][j].key;
    RemoveMapped(bucket, buckets, m, i, j);
    RemovePlaced(bucket, buckets, m, i, j);
    RemoveDistinct(buckets, i, j);
    assert (m - {key}).Keys == m.Keys - {key};
  }

  lemma RemoveMapped<K(!new), V>(bucket: Key<K> -> int, buckets: seq<seq<Entry<K, V>>>, m: map<Key<K>, V>, i: int, j: int)
    requires EntriesMapped(bucket, buckets, m) && ChainsDistinct(buckets)
    requires 0 <= i < |buckets| && 0 <= j < |buckets[i]|
    ensures EntriesMapped(bucket, Unlinked(buckets, i, j), m - {buckets[i][j].key})
  {
    var b: seq<seq<Entry<K, V>>> := Unlinked(buckets, i, j);
    forall x, n | 0 <= x < |b| && 0 <= n < |b[x]|
      ensures && bucket(b[x][n].key) == x
              && b[x][n].key in m - {buckets[i][j].key}
              && (m - {buckets[i][j].key})[b[x][n].key] == b[x][n].value
    {
      var n' := if x == i && n >= j then n + 1 else n;
      assert b[x][n] == buckets[x][n'];
    }
  }

  lemma RemovePlaced<K(!new), V>(bucket: Key<K> -> int, buckets: seq<seq<Entry<K, V>>>, m: map<Key<K>, V>, i: int, j: int)
    requires WellPlaced(bucket, buckets, m)
    requires 0 <= i < |buckets| && 0 <= j < |buckets[i]|
    ensures KeysPlaced(bucket, Unlinked(buckets, i, j), m - {buckets[i][j].key})
  {
    var b: seq<seq<Entry<K, V>>> := Unlinked(buckets, i, j);
    forall k | k in m - {buckets[i][j].key}
      ensures KeyPos(b[bucket(k)], k) >= 0
    {
      var c := bucket(k);
      var p := KeyPos(buckets[c], k);
      if c == i && p < j {
        assert b[c][p] == buckets[c][p];
      } else if c == i {
        assert p != j;
        assert b[c][p - 1] == buckets[c][p];
      } else {
        assert b[c][p].key == k;
      }
    }
  }

  lemma RemoveDistinct<K(!new), V>(buckets: seq<seq<Entry<K, V>>>, i: int, j: int)
    requires ChainsDistinct(buckets)
    requires 0 <= i < |buckets| && 0 <= j < |buckets[i]|
    ensures ChainsDistinct(Unlinked(buckets, i, j))
  {
    var b: seq<seq<Entry<K, V>>> := Unlinked(buckets, i, j);
    forall x, u, n | 0 <= x < |b| && 0 <= u < n < |b[x]|
      ensures b[x][u].key != b[x][n].key
    {
      var u' := if x == i && u >= j then u + 1 else u;
      var n' := if x == i && n >= j then n + 1 else n;
      assert b[x][u] == buckets[x][u'] && b[x][n] == buckets[x][n'];
    }
  }

  /** Whether (i, j) is a position of the walk over `chains`: chain `i`,
      before its entry `j`, or the end of the walk. */
  predicate InWalk<K, V>(chains: seq<seq<Entry<K, V>>>, i: int, j: int)
  {
    (0 <= i < |chains| && 0 <= j <= |chains[i]|) || (i == |chains| && j == 0)
  }

  /** The mapping that putting the entries of `chains` before (i, j), in
      order, into an empty map builds. */
  ghost function Entries<K, V>(chains: seq<seq<Entry<K, V>>>, i: int, j: int): map<Key<K>, V>
    requires InWalk(chains, i, j)
    decreases i, j
  {
    if j > 0 then Entries(chains, i, j - 1)[chains[i][j - 1].key := chains[i][j - 1].value]
    else if i > 0 then Entries(chains, i - 1, |chains[i - 1]|)
    else map[]
  }

  /** Every key the walk has put so far is mapped by `m` to the value put,
      when every entry of the chains is. */
  lemma {:induction false} EntriesAgree<K(!new), V>(bucket: Key<K> -> int, chains: seq<seq<Entry<K, V>>>, m: map<Key<K>, V>, i: int, j: int)
    requires EntriesMapped(bucket, chains, m) && InWalk(chains, i, j)
    ensures forall k :: k in Entries(chains, i, j) ==> k in m && Entries(chains, i, j)[k] == m[k]
    decreases i, j
  {
    if j > 0 {
      EntriesAgree(bucket, chains, m, i, j - 1);
      var e := chains[i][j - 1];
      assert e.key in m && m[e.key] == e.value;
    } else if i > 0 {
      EntriesAgree(bucket, chains, m, i - 1, |chains[i - 1]|);
    }
  }

  /** The walk has put the key of every entry it has passed. */
  lemma {:induction false} EntriesCover<K, V>(chains: seq<seq<Entry<K, V>>>, i: int, j: int)
    requires InWalk(chains, i, j)
    ensures forall x, n :: 0 <= x < i && 0 <= n < |chains[x]| ==> chains[x][n].key in Entries(chains, i, j)
    ensures i < |chains| ==> forall n :: 0 <= n < j ==> chains[i][n].key in Entries(chains, i, j)
    decreases i, j
  {
    if j > 0 {
      EntriesCover(chains, i, j - 1);
    } else if i > 0 {
      EntriesCover(chains, i - 1, |chains[i - 1]|);
    }
  }

  /** Putting every entry of a well-placed table into an empty map rebuilds
      exactly the table's mapping. */
  lemma EntriesOfTable<K(!new), V>(bucket: Key<K> -> int, chains: seq<seq<Entry<K, V>>>, m: map<Key<K>, V>)
    requires WellPlaced(bucket, chains, m)
    ensures Entries(chains, |chains|, 0) == m
  {
    var e := Entries(chains, |chains|, 0);
    EntriesAgree(bucket, chains, m, |chains|, 0);
    EntriesCover(chains, |chains|, 0);
    forall k | k in m
      ensures k in e
    {
      var c := bucket(k);
      var p := KeyPos(chains[c], k);
      assert chains[c][p].key == k;
    }
    assert e.Keys == m.Keys;
  }

  /** `new Entry[capacity]`: a table of empty chains. */
  method NewTable<K(!new), V>(hashCode: K -> int, capacity: int) returns (t: array<seq<Entry<K, V>>>)
    requires Capacity(capacity)
    ensures fresh(t) && t.Length == capacity
    ensures forall i :: 0 <= i < capacity ==> t[i] == []
    ensures WellPlaced(BucketOf(hashCode, capacity), t[..], map[])
  {
    t := new seq<Entry<K, V>>[capacity](_ => []);
  }

  /** The walk along a chain that `get`, `containsKey` and `put` share: the
      position of the entry whose key equals `key` (both `null`, or equal by
      `equals`), or -1 when the walk reaches the end of the chain. */
  method Find<K(==,!new), V>(chain: seq<Entry<K, V>>, key: Key<K>) returns (j: int)
    ensures j == KeyPos(chain, key)
  {
    j := 0;
    while j < |chain|
      invariant 0 <= j <= |chain|
      invariant forall m :: 0 <= m < j ==> chain[m].key != key
    {
      if key.None? && chain[j].key.None? {
        return;
      }
      if key.Some? && key == chain[j].key {
        return;
      }
      j := j + 1;
    }
    return -1;
  }

  /** The walk of `remove` past the head of a chain, which keeps `x` on the
      entry before the one it inspects: the position of the entry whose key
      equals the non-null `key`, or -1 where `x.next` runs out (and `remove`
      dereferences `null`). */
  method WalkPast<K(==,!new), V>(chain: seq<Entry<K, V>>, key: Key<K>) returns (j: int)
    requires key.Some? && |chain| > 0 && chain[0].key != key
    ensures j == KeyPos(chain, key)
  {
    var x := 0;
    while true
      invariant 0 <= x < |chain|
      invariant forall m :: 0 <= m <= x ==> chain[m].key != key
      decreases |chain| - x
    {
      if x + 1 == |chain| {
        return -1;
      }
      if key == chain[x + 1].key {
        return x + 1;
      }
      x := x + 1;
    }
  }

  /** The loop of the constructor that doubles `capacity` from 1 until it
      reaches `wanted`: the smallest power of two not below `wanted`. */
  method RoundUp(wanted: int) returns (capacity: int)
    requires 1 <= wanted <= MAXIMUM_CAPACITY
    ensures Capacity(capacity) && capacity == CapacityFor(wanted)
  {
    MaximumIsPowerOfTwo();
    capacity := 1;
    while capacity < wanted
      invariant Capacity(capacity)
      invariant capacity == 1 || capacity / 2 < wanted
    {
      PowerOfTwoGap(capacity, MAXIMUM_CAPACITY);
      capacity := capacity * 2;
    }
    SmallestPowerOfTwo(wanted, capacity);
  }

  /** `(int) (DEFAULT_INITIAL_CAPACITY * DEFAULT_LOAD_FACTOR)`. */
  function DefaultThreshold(): (t: int)
    ensures t == ThresholdFor(DEFAULT_INITIAL_CAPACITY, DEFAULT_LOAD_FACTOR) == 12
  {
    ThresholdFor(DEFAULT_INITIAL_CAPACITY, DEFAULT_LOAD_FACTOR)
  }

  /** The naive search of `containsValue` over each entry of each chain. */
  method Holds<K, V(==)>(table: array<seq<Entry<K, V>>>, value: V) returns (b: bool)
    ensures b <==> exists x, n :: 0 <= x < table.Length && 0 <= n < |table[x]| && table[x][n].value == value
  {
    var i := 0;
    while i < table.Length
      invariant 0 <= i <= table.Length
      invariant forall x, n :: 0 <= x < i && 0 <= n < |table[x]| ==> table[x][n].value != value
    {
      var chain := table[i];
      var j := 0;
      while j < |chain|
        invariant 0 <= j <= |chain|
        invariant forall n :: 0 <= n < j ==> chain[n].value != value
      {
        if value == chain[j].value {
          return true;
        }
        j := j + 1;
      }
      i := i + 1;
    }
    return false;
  }

  /** `put` fails exactly when it must grow a table that already has 2^30 buckets. */
  predicate Overflows(length: int, size: int, threshold: int)
  {
    size + 1 >= threshold && length == MAXIMUM_CAPACITY
  }

  /** Whether `remove(key)` as written gets through: the key is mapped, and a
      `null` key heads bucket 0. */
  ghost predicate Removable<K(!new), V>(buckets: seq<seq<Entry<K, V>>>, m: map<Key<K>, V>, key: Key<K>)
  {
    key in m && (key.Some? || (|buckets| > 0 && |buckets[0]| > 0 && buckets[0][0].key.None?))
  }

  class HashMap<K(==,!new), V(==)> {
    /** The keys' `hashCode`; equal keys have equal codes. */
    const hashCode: K -> int
    const loadFactor: real
    var table: array<seq<Entry<K, V>>>
    var size: int
    var threshold: int
    ghost var contents: map<Key<K>, V>

    /** The table has a legal length, its chains hold exactly `contents`, and
        `size` counts the entries. */
    ghost predicate Valid()
      reads this, table
    {
      && loadFactor > 0.0
      && Capacity(table.Length)
      && WellPlaced(BucketOf(hashCode, table.Length), table[..], contents)
      && size == |contents|
    }

    /** An empty map over `capacity` empty buckets. */
    constructor Empty(hash: K -> int, capacity: int, lf: real)
      requires Capacity(capacity) && lf > 0.0
      ensures Valid() && fresh(table)
      ensures contents == map[] && size == 0
      ensures table.Length == capacity && loadFactor == lf && hashCode == hash
      ensures threshold == ThresholdFor(capacity, lf)
    {
      hashCode := hash;
      loadFactor := lf;
      threshold := ThresholdFor(capacity, lf);
      var t := NewTable(hash, capacity);
      table := t;
      size := 0;
      contents := map[];
    }

    /** `HashMap(initialCapacity, loadFactor)`: rejects a non-positive capacity
        or load factor, clamps the capacity to 2^30, and rounds it up to the
        smallest power of two. */
    static method New(hash: K -> int, initialCapacity: int, lf: real) returns (r: Result<HashMap<K, V>>)
      ensures r.Failure? <==> initialCapacity <= 0 || lf <= 0.0
      ensures r.Failure? ==> r.error == IllegalArgument
      ensures r.Success? ==>
        var m := r.value;
        var wanted := if initialCapacity > MAXIMUM_CAPACITY then MAXIMUM_CAPACITY else initialCapacity;
        && fresh(m) && fresh(m.table) && m.Valid()
        && m.contents == map[] && m.size == 0 && m.loadFactor == lf && m.hashCode == hash
        && m.table.Length == CapacityFor(wanted)
        && m.threshold == ThresholdFor(m.table.Length, lf)
    {
      var wanted := initialCapacity;
      if wanted <= 0 {
        return Failure(IllegalArgument);
      }
      if wanted > MAXIMUM_CAPACITY {
        wanted := MAXIMUM_CAPACITY;
      }
      if lf <= 0.0 {
        return Failure(IllegalArgument);
      }
      var capacity := RoundUp(wanted);
      var m := new HashMap.Empty(hash, capacity, lf);
      return Success(m);
    }

    /** `HashMap(initialCapacity)`: the default load factor 0.75. */
    static method WithCapacity(hash: K -> int, initialCapacity: int) returns (r: Result<HashMap<K, V>>)
      ensures r.Failure? <==> initialCapacity <= 0
      ensures r.Failure? ==> r.error == IllegalArgument
      ensures r.Success? ==>
        && fresh(r.value) && r.value.Valid() && r.value.contents == map[]
        && r.value.loadFactor == DEFAULT_LOAD_FACTOR
        && r.value.table.Length == CapacityFor(if initialCapacity > MAXIMUM_CAPACITY then MAXIMUM_CAPACITY else initialCapacity)
    {
      r := New(hash, initialCapacity, DEFAULT_LOAD_FACTOR);
    }

    /** `HashMap()`: 16 buckets, load factor 0.75, threshold 12. */
    static method Default(hash: K -> int) returns (m: HashMap<K, V>)
      ensures fresh(m) && m.Valid() && m.contents == map[] && m.size == 0
      ensures m.table.Length == DEFAULT_INITIAL_CAPACITY && m.loadFactor == DEFAULT_LOAD_FACTOR
      ensures m.threshold == 12
    {
      var r := New(hash, DEFAULT_INITIAL_CAPACITY, DEFAULT_LOAD_FACTOR);
      assert CapacityFor(16) == 16 by {
        DefaultIsPowerOfTwo();
        SmallestPowerOfTwo(16, 16);
      }
      m := r.value;
    }

    function Size(): (n: int)
      requires Valid()
      reads this, table
      ensures n == |contents|
    {
      size
    }

    /** `get`: the value mapped to `key`, or `null`. */
    method Get(key: Key<K>) returns (r: Option<V>)
      requires Valid()
      ensures r == if key in contents then Some(contents[key]) else None
    {
      var index := IndexFor(hashCode, key, table.Length);
      var chain := table[index];
      Located(BucketOf(hashCode, table.Length), table[..], contents, key);
      var j := Find(chain, key);
      if j < 0 {
        return None;
      }
      return Some(chain[j].value);
    }

    /** `containsKey`: whether `key` is mapped. */
    method ContainsKey(key: Key<K>) returns (b: bool)
      requires Valid()
      ensures b <==> key in contents
    {
      var index := IndexFor(hashCode, key, table.Length);
      var chain := table[index];
      Located(BucketOf(hashCode, table.Length), table[..], contents, key);
      var j := Find(chain, key);
      return j >= 0;
    }

    /** `containsValue`: whether some key is mapped to `value`. */
    method ContainsValue(value: V) returns (b: bool)
      requires Valid()
      ensures b <==> exists k :: k in contents && contents[k] == value
    {
      b := Holds(table, value);
      ValueLocated(BucketOf(hashCode, table.Length), table[..], contents, value);
    }

    /** `put`: grows the table first when `size + 1` reaches the threshold,
        then maps `key` to `value`, returning the value it replaces.  Growing
        a table of 2^30 buckets doubles `table.length` past `Integer.MAX_VALUE`
        and fails allocating an array of negative length. */
    method Put(key: Key<K>, value: V) returns (r: Result<Option<V>>)
      requires Valid()
      modifies this, table
      decreases MAXIMUM_CAPACITY - table.Length, 2
      ensures Valid() && (table == old(table) || fresh(table))
      ensures old(table.Length) <= table.Length
      ensures old(table.Length) < MAXIMUM_CAPACITY ==> table.Length < MAXIMUM_CAPACITY
      ensures Overflows(old(table.Length), old(size), old(threshold)) ==>
        && r == Failure(NegativeArraySize)
        && table == old(table) && table[..] == old(table[..])
        && contents == old(contents) && threshold == old(threshold)
      ensures !Overflows(old(table.Length), old(size), old(threshold)) ==>
        && r == Success(if key in old(contents) then Some(old(contents)[key]) else None)
        && contents == old(contents)[key := value]
      ensures old(size) + 1 < old(threshold) ==> table == old(table) && threshold == old(threshold)
      ensures old(size) + 1 >= old(threshold) && 2 * old(table.Length) == MAXIMUM_CAPACITY ==>
        table == old(table) && threshold == MAX_INT
      ensures old(size) + 1 >= old(threshold) && 2 * old(table.Length) < MAXIMUM_CAPACITY ==>
        && fresh(table) && 2 * old(table.Length) <= table.Length
        && (threshold == ThresholdFor(table.Length, loadFactor) || threshold == MAX_INT)
    {
      if size + 1 >= threshold {
        Doubled(table.Length);
        var o := Grow();
        if o.Fail? {
          return Failure(o.error);
        }
      }
      var previous := Store(key, value);
      return Success(previous);
    }

    /** The growth step of `put`: `resize(table.length * 2)`, where the
        product is an `int` and so wraps to a negative number for a table of
        2^30 buckets. */
    method Grow() returns (o: Outcome)
      requires Valid()
      modifies this
      decreases MAXIMUM_CAPACITY - table.Length, 1
      ensures Valid() && contents == old(contents) && (table == old(table) || fresh(table))
      ensures old(table.Length) == MAXIMUM_CAPACITY ==>
        && o == Fail(NegativeArraySize) && table == old(table) && table[..] == old(table[..])
        && threshold == old(threshold) && size == old(size)
      ensures 2 * old(table.Length) == MAXIMUM_CAPACITY ==>
        o == Pass && table == old(table) && threshold == MAX_INT
      ensures 2 * old(table.Length) < MAXIMUM_CAPACITY ==>
        && o == Pass && fresh(table) && 2 * old(table.Length) <= table.Length < MAXIMUM_CAPACITY
        && (threshold == ThresholdFor(table.Length, loadFactor) || threshold == MAX_INT)
    {
      Doubled(table.Length);
      o := Resize(Wrap32(table.Length * 2));
    }

    /** The part of `put` after the growth check: overwrites the value of the
        entry of `key` in its chain, or links a new entry at the chain's head. */
    method Store(key: Key<K>, value: V) returns (previous: Option<V>)
      requires Valid()
      modifies table, `size, `contents
      ensures Valid()
      ensures previous == if key in old(contents) then Some(old(contents)[key]) else None
      ensures contents == old(contents)[key := value]
    {
      var index := IndexFor(hashCode, key, table.Length);
      var chain := table[index];
      ghost var buckets: seq<seq<Entry<K, V>>> := table[..];
      Located(BucketOf(hashCode, table.Length), buckets, contents, key);
      var j := Find(chain, key);
      if j >= 0 {
        var ret := chain[j].value;
        PlacedReplace(BucketOf(hashCode, table.Length), buckets, contents, index, j, value);
        table[index] := chain[j := Entry(chain[j].key, value)];
        assert table[..] == buckets[index := buckets[index][j := Entry(key, value)]];
        contents := contents[key := value];
        return Some(ret);
      }
      PlacedInsert(BucketOf(hashCode, table.Length), buckets, contents, key, value);
      table[index] := [Entry(key, value)] + chain;
      assert table[..] == buckets[index := [Entry(key, value)] + buckets[index]];
      size := size + 1;
      contents := contents[key := value];
      return None;
    }

    /** `resize`: from 2^30 on it only raises the threshold to
        `Integer.MAX_VALUE`; a negative capacity fails to allocate; otherwise
        every entry is put again into a fresh table of `newCapacity` buckets
        (which those puts may grow further). */
    method Resize(newCapacity: int) returns (o: Outcome)
      requires Valid()
      requires newCapacity < 0 || newCapacity >= MAXIMUM_CAPACITY ||
               (IsPowerOfTwo(newCapacity) && newCapacity > table.Length)
      modifies this
      decreases MAXIMUM_CAPACITY - table.Length, 0
      ensures Valid() && contents == old(contents) && (table == old(table) || fresh(table))
      ensures newCapacity >= MAXIMUM_CAPACITY ==>
        o == Pass && table == old(table) && threshold == MAX_INT
      ensures newCapacity < 0 ==>
        && o == Fail(NegativeArraySize) && table == old(table) && table[..] == old(table[..])
        && threshold == old(threshold) && size == old(size)
      ensures 0 <= newCapacity < MAXIMUM_CAPACITY ==>
        && o == Pass && fresh(table) && newCapacity <= table.Length < MAXIMUM_CAPACITY
        && (threshold == ThresholdFor(table.Length, loadFactor) || threshold == MAX_INT)
    {
      if newCapacity >= MAXIMUM_CAPACITY {
        threshold := MAX_INT;
        return Pass;
      }
      if newCapacity < 0 {
        return Fail(NegativeArraySize);
      }
      var tempTable := table[..];
      EntriesOfTable(BucketOf(hashCode, table.Length), tempTable, contents);
      table := NewTable(hashCode, newCapacity);
      threshold := ThresholdFor(newCapacity, loadFactor);
      size := 0;
      contents := map[];
      var i := 0;
      while i < |tempTable|
        invariant i <= |tempTable| && Refilling(tempTable, i, 0)
        invariant fresh(table) && newCapacity <= table.Length
      {
        PutChain(tempTable, i);
        assert Entries(tempTable, i + 1, 0) == Entries(tempTable, i, |tempTable[i]|);
        i := i + 1;
      }
      return Pass;
    }

    /** The state `resize` keeps while it puts the entries of the old table
        `chains` again: a valid map below the maximum capacity, whose
        threshold is the one of its capacity, holding the entries before
        (i, j). */
    ghost predicate Refilling(chains: seq<seq<Entry<K, V>>>, i: int, j: int)
      reads this, table
    {
      && Valid() && table.Length < MAXIMUM_CAPACITY
      && (threshold == ThresholdFor(table.Length, loadFactor) || threshold == MAX_INT)
      && InWalk(chains, i, j) && contents == Entries(chains, i, j)
    }

    /** The inner loop of `resize`: puts every entry of chain `i` of the old
        table `chains` again. */
    method PutChain(chains: seq<seq<Entry<K, V>>>, i: int)
      requires i < |chains| && Refilling(chains, i, 0)
      modifies this, table
      decreases MAXIMUM_CAPACITY - table.Length, 4
      ensures Refilling(chains, i, |chains[i]|)
      ensures (table == old(table) || fresh(table)) && old(table.Length) <= table.Length
    {
      var j := 0;
      while j < |chains[i]|
        invariant j <= |chains[i]| && Refilling(chains, i, j)
        invariant (table == old(table) || fresh(table)) && old(table.Length) <= table.Length
      {
        PutEntry(chains, i, j);
        j := j + 1;
      }
    }

    /** One step of `resize`'s inner loop: puts entry `j` of chain `i` of the
        old table `chains` again. */
    method PutEntry(chains: seq<seq<Entry<K, V>>>, i: int, j: int)
      requires Refilling(chains, i, j) && i < |chains| && j < |chains[i]|
      modifies this, table
      decreases MAXIMUM_CAPACITY - table.Length, 3
      ensures Refilling(chains, i, j + 1)
      ensures (table == old(table) || fresh(table)) && old(table.Length) <= table.Length
    {
      CapacityGap(table.Length);
      var _ := Put(chains[i][j].key, chains[i][j].value);
    }

    /** `remove` as written: a present key is unlinked from its chain and its
        value returned, but the chain walk dereferences `null` for a key that
        is absent (an empty bucket included) and calls `equals` on a `null`
        key that is not at the head of bucket 0. */
    method Remove(key: Key<K>) returns (r: Result<Option<V>>)
      requires Valid()
      modifies table, `size, `contents
      ensures Valid()
      ensures r.Success? <==> Removable(old(table[..]), old(contents), key)
      ensures r.Success? ==>
        && key in old(contents) && r.value == Some(old(contents)[key])
        && contents == old(contents) - {key}
      ensures r.Failure? ==> r.error == NullPointer && contents == old(contents) && table[..] == old(table[..])
    {
      var index := IndexFor(hashCode, key, table.Length);
      var chain := table[index];
      Located(BucketOf(hashCode, table.Length), table[..], contents, key);
      if |chain| == 0 {
        return Failure(NullPointer);
      }
      if key.None? && chain[0].key.None? {
        Unlink(index, 0);
        return Success(Some(chain[0].value));
      } else if key.None? {
        return Failure(NullPointer);
      } else if key == chain[0].key {
        Unlink(index, 0);
        return Success(Some(chain[0].value));
      }
      var j := WalkPast(chain, key);
      if j < 0 {
        return Failure(NullPointer);
      }
      Unlink(index, j);
      return Success(Some(chain[j].value));
    }

    /** Unlinks entry `j` of chain `i`, the entry of its key. */
    method Unlink(i: int, j: int)
      requires Valid() && 0 <= i < table.Length && 0 <= j < |table[i]|
      modifies table, `size, `contents
      ensures Valid()
      ensures contents == old(contents) - {old(table[i][j].key)}
      ensures table[..] == old(table[..])[i := old(table[i][..j] + table[i][j + 1..])]
    {
      PlacedRemove(BucketOf(hashCode, table.Length), table[..], contents, i, j);
      contents := contents - {table[i][j].key};
      table[i] := table[i][..j] + table[i][j + 1..];
      assert table[..] == Unlinked(old(table[..]), i, j);
      size := size - 1;
    }

    /** `clear`: 16 empty buckets with the default threshold 12, whatever the
        load factor of the map. */
    method Clear()
      requires loadFactor > 0.0
      modifies this
      ensures Valid() && fresh(table)
      ensures contents == map[] && size == 0
      ensures table.Length == DEFAULT_INITIAL_CAPACITY && threshold == 12
      ensures forall i :: 0 <= i < table.Length ==> table[i] == []
    {
      DefaultIsPowerOfTwo();
      table := NewTable(hashCode, DEFAULT_INITIAL_CAPACITY);
      size := 0;
      threshold := DefaultThreshold();
      contents := map[];
    }
  }
}
