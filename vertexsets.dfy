/** Facts about sets and sequences of vertex ids shared by the graph
    algorithms. */
module VertexSets {
  /** The vertices listed in `q`, as a set. */
  ghost function Members(q: seq<int>): set<int>
  {
    set i | 0 <= i < |q| :: q[i]
  }

  /** Removing the front of a queue removes exactly that vertex. */
  lemma PopFront(q: seq<int>)
    requires |q| > 0 && forall i :: 1 <= i < |q| ==> q[i] != q[0]
    ensures Members(q) == Members(q[1..]) + {q[0]} && q[0] !in Members(q[1..])
  {
    forall x | x in Members(q) ensures x in Members(q[1..]) + {q[0]} {
      var i :| 0 <= i < |q| && q[i] == x;
      if i > 0 {
        assert q[1..][i - 1] == x;
      }
    }
    forall x | x in Members(q[1..]) ensures x in Members(q) && x != q[0] {
      var i :| 0 <= i < |q[1..]| && q[1..][i] == x;
      assert q[i + 1] == x;
    }
  }

  /** Appending a vertex adds exactly that vertex. */
  lemma PushBack(q: seq<int>, u: int)
    ensures Members(q + [u]) == Members(q) + {u}
  {
    forall x | x in Members(q + [u]) ensures x in Members(q) + {u} {
      var i :| 0 <= i < |q + [u]| && (q + [u])[i] == x;
      if i < |q| {
        assert q[i] == x;
      }
    }
    forall x | x in Members(q) ensures x in Members(q + [u]) {
      var i :| 0 <= i < |q| && q[i] == x;
      assert (q + [u])[i] == x;
    }
    assert (q + [u])[|q|] == u;
  }

  /** The vertices of a concatenation are those of its parts. */
  lemma ConcatMembers(a: seq<int>, b: seq<int>)
    ensures Members(a + b) == Members(a) + Members(b)
  {
    forall v | v in Members(a + b) ensures v in Members(a) + Members(b) {
      var i :| 0 <= i < |a + b| && (a + b)[i] == v;
      if i >= |a| {
        assert b[i - |a|] == v;
      }
    }
    forall v | v in Members(a) + Members(b) ensures v in Members(a + b) {
      if v in Members(a) {
        var i :| 0 <= i < |a| && a[i] == v;
        assert (a + b)[i] == v;
      } else {
        var i :| 0 <= i < |b| && b[i] == v;
        assert (a + b)[|a| + i] == v;
      }
    }
  }

  /** No vertex is listed twice. */
  predicate Distinct(s: seq<int>)
  {
    forall i, j :: 0 <= i < j < |s| ==> s[i] != s[j]
  }

  /** A set of vertices below `n` has at most `n` elements. */
  lemma {:induction false} BoundedSetSize(S: set<int>, n: int)
    requires n >= 0 && forall x :: x in S ==> 0 <= x < n
    ensures |S| <= n
    decreases n
  {
    if n > 0 {
      BoundedSetSize(S - {n - 1}, n - 1);
    } else {
      assert forall x :: x !in S;
      assert S == {};
    }
  }
}
