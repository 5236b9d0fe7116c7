/** Breadth-first traversal of the adjacency matrix, written the way the C function
    works: an array queue with front and rear counters that start at -1, a local visited
    array that starts all clear, and a scan of each dequeued node's row in increasing
    column order. What the C prints is appended to the returned sequence instead. */
module Traversal {
  import opened Graph
  import opened BfsSpec

  /** The queue array's used part, queue[0..rear], holds exactly s. */
  ghost predicate Holds(queue: array<int>, rear: int, s: seq<int>)
    reads queue
  {
    -1 <= rear < queue.Length && |s| == rear + 1 &&
    forall k :: 0 <= k < |s| ==> queue[k] == s[k]
  }

  /** Visits the nodes reachable from startNode, returning them in the order the C prints them. */
  method Bfs(graph: array2<int>, startNode: int, totalNodes: int) returns (order: seq<int>)
    requires 0 <= startNode < totalNodes <= MAX_NODES
    requires Covers(graph, totalNodes)
    ensures order == BfsOrder(Snapshot(graph, totalNodes), startNode)
  {
    ghost var m := Snapshot(graph, totalNodes);
    var queue := new int[MAX_NODES];
    var front, rear := -1, -1;
    var visited := new bool[MAX_NODES](_ => false);

    rear := rear + 1;
    queue[rear] := startNode;
    visited[startNode] := true;
    order := [];

    // The used part of the queue, queue[0..rear]: every node discovered so far.
    ghost var q := [startNode];

    while front < rear
      invariant -1 <= front <= rear < totalNodes
      invariant Holds(queue, rear, q)
      invariant Distinct(q) && InRange(q, totalNodes)
      invariant |order| == front + 1 && order <= q
      invariant forall v :: 0 <= v < MAX_NODES ==> (visited[v] <==> v in q)
      invariant BfsFrom(m, q, front + 1) == BfsOrder(m, startNode)
      decreases totalNodes - front
    {
      front := front + 1;
      var currentNode := queue[front];
      order := order + [currentNode];
      ghost var before := q;
      rear := ScanRow(graph, totalNodes, currentNode, queue, visited, rear, m, before);
      q := Scan(m, currentNode, before, totalNodes);
      assert before <= q && Distinct(q) && InRange(q, totalNodes) && |q| <= totalNodes &&
        BfsFrom(m, before, front) == BfsFrom(m, q, front + 1) by {
        BfsFromStep(m, before, front);
      }
    }
    assert BfsFrom(m, q, |q|) == q;
  }

  /** The inner loop of the traversal: scans row currentNode in increasing column order
      and enqueues, marking it visited, every node it has an edge to that is not yet
      visited. Returns the new rear. */
  method ScanRow(graph: array2<int>, totalNodes: int, currentNode: int,
                 queue: array<int>, visited: array<bool>, rear: int,
                 ghost m: seq<seq<int>>, ghost before: seq<int>)
    returns (newRear: int)
    requires 0 <= currentNode < totalNodes <= MAX_NODES && Covers(graph, totalNodes)
    requires m == Snapshot(graph, totalNodes)
    requires queue.Length == MAX_NODES && visited.Length == MAX_NODES
    requires Holds(queue, rear, before)
    requires Distinct(before) && InRange(before, totalNodes)
    requires forall v :: 0 <= v < MAX_NODES ==> (visited[v] <==> v in before)
    modifies queue, visited
    ensures rear <= newRear < MAX_NODES
    ensures Holds(queue, newRear, Scan(m, currentNode, before, totalNodes))
    ensures forall v :: 0 <= v < MAX_NODES ==> (visited[v] <==> v in Scan(m, currentNode, before, totalNodes))
  {
    newRear := rear;
    for i := 0 to totalNodes
      invariant rear <= newRear < MAX_NODES
      invariant Holds(queue, newRear, Scan(m, currentNode, before, i))
      invariant forall v :: 0 <= v < MAX_NODES ==> (visited[v] <==> v in Scan(m, currentNode, before, i))
    {
      ScanDistinct(m, currentNode, before, i + 1);
      if graph[currentNode, i] == 1 && !visited[i] {
        DistinctBounded(Scan(m, currentNode, before, i + 1), totalNodes);
        newRear := newRear + 1;
        queue[newRear] := i;
        visited[i] := true;
      }
    }
  }
}
