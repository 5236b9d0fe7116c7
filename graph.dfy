/** Adjacency-matrix graphs as the traversal menu loads them: the first n rows and
    columns of an integer matrix, where an entry equal to 1 (and nothing else) is an edge. */
module Graph {

  /** Capacity of the global matrix and of the traversal queue. */
  const MAX_NODES: nat := 100

  /** The matrix holds at least the first n rows and columns. */
  predicate Covers(g: array2<int>, n: nat)
  {
    n <= g.Length0 && n <= g.Length1
  }

  /** A square matrix as a value: one row per node, one column per node. */
  ghost predicate Square(m: seq<seq<int>>)
  {
    forall u :: 0 <= u < |m| ==> |m[u]| == |m|
  }

  /** Row u of the matrix, columns 0..k-1, as a value. */
  ghost function RowPrefix(g: array2<int>, u: nat, k: nat): (r: seq<int>)
    requires u < g.Length0 && k <= g.Length1
    reads g
    ensures |r| == k && forall v :: 0 <= v < k ==> r[v] == g[u, v]
  {
    if k == 0 then [] else RowPrefix(g, u, k - 1) + [g[u, k - 1]]
  }

  /** Rows 0..k-1 of the matrix, each cut to its first n columns, as a value. */
  ghost function RowsPrefix(g: array2<int>, n: nat, k: nat): (m: seq<seq<int>>)
    requires k <= g.Length0 && n <= g.Length1
    reads g
    ensures |m| == k
    ensures forall u :: 0 <= u < k ==> |m[u]| == n
    ensures forall u, v :: 0 <= u < k && 0 <= v < n ==> m[u][v] == g[u, v]
  {
    if k == 0 then [] else RowsPrefix(g, n, k - 1) + [RowPrefix(g, k - 1, n)]
  }

  /** The first n rows and columns of the matrix, as a value. */
  ghost function Snapshot(g: array2<int>, n: nat): (m: seq<seq<int>>)
    requires Covers(g, n)
    reads g
    ensures |m| == n && Square(m)
    ensures forall u, v :: 0 <= u < n && 0 <= v < n ==> m[u][v] == g[u, v]
  {
    RowsPrefix(g, n, n)
  }

  /** u -> v is an edge among the nodes 0..|m|-1: the matrix entry is exactly 1. */
  ghost predicate Edge(m: seq<seq<int>>, u: int, v: int)
    requires Square(m)
  {
    0 <= u < |m| && 0 <= v < |m| && m[u][v] == 1
  }

  /** p is a non-empty walk through the nodes along edges. */
  ghost predicate IsPath(m: seq<seq<int>>, p: seq<int>)
    requires Square(m)
  {
    |p| >= 1 && 0 <= p[0] < |m| &&
    forall i :: 0 <= i < |p| - 1 ==> Edge(m, p[i], p[i + 1])
  }

  /** t can be reached from s by following zero or more edges. */
  ghost predicate Reachable(m: seq<seq<int>>, s: int, t: int)
    requires Square(m)
  {
    exists p :: IsPath(m, p) && p[0] == s && p[|p| - 1] == t
  }

  /** Extending a walk by one edge gives a walk. */
  lemma ReachableStep(m: seq<seq<int>>, s: int, u: int, v: int)
    requires Square(m)
    requires Reachable(m, s, u) && Edge(m, u, v)
    ensures Reachable(m, s, v)
  {
    var p :| IsPath(m, p) && p[0] == s && p[|p| - 1] == u;
    var p' := p + [v];
    assert forall i :: 0 <= i < |p'| - 1 ==> p'[i] == p[i];
    assert IsPath(m, p');
  }

  /** Every node of 0..n-1 reaches itself. */
  lemma ReachableRefl(m: seq<seq<int>>, s: int)
    requires Square(m) && 0 <= s < |m|
    ensures Reachable(m, s, s)
  {
    assert IsPath(m, [s]);
  }

  /** No two positions of s hold the same value. */
  ghost predicate Distinct(s: seq<int>)
  {
    forall i, j :: 0 <= i < j < |s| ==> s[i] != s[j]
  }

  /** Every value of s is a node id below n. */
  ghost predicate InRange(s: seq<int>, n: nat)
  {
    forall i :: 0 <= i < |s| ==> 0 <= s[i] < n
  }

  /** Joining two sequences without common values keeps the values distinct. */
  lemma DistinctAppend(a: seq<int>, b: seq<int>)
    requires Distinct(a) && Distinct(b)
    requires forall x :: x in b ==> x !in a
    ensures Distinct(a + b)
  {
    forall i, j | 0 <= i < j < |a + b|
      ensures (a + b)[i] != (a + b)[j]
    {
      if j >= |a| && i < |a| {
        assert (a + b)[j] in b;
        assert (a + b)[i] == a[i];
      }
    }
  }

  /** A sequence of distinct values drawn from a set is no longer than the set is large. */
  lemma {:induction false} DistinctWithin(s: seq<int>, pool: set<int>)
    requires Distinct(s) && forall i :: 0 <= i < |s| ==> s[i] in pool
    ensures |s| <= |pool|
  {
    if s != [] {
      var t := s[1..];
      var rest := pool - {s[0]};
      assert forall i :: 0 <= i < |t| ==> t[i] in rest by {
        forall i | 0 <= i < |t| ensures t[i] in rest {
          assert t[i] == s[i + 1];
        }
      }
      DistinctWithin(t, rest);
      assert pool == rest + {s[0]};
    }
  }

  /** The node ids 0..n-1 as a set: exactly those ids, and exactly n of them. */
  ghost function NodeSet(n: nat): (r: set<int>)
    ensures forall x :: x in r <==> 0 <= x < n
    ensures |r| == n
  {
    if n == 0 then {} else NodeSet(n - 1) + {n - 1}
  }

  /** At most n distinct node ids fit below n: the bound that keeps the BFS queue from overflowing. */
  lemma DistinctBounded(s: seq<int>, n: nat)
    requires Distinct(s) && InRange(s, n)
    ensures |s| <= n
  {
    DistinctWithin(s, NodeSet(n));
  }
}
