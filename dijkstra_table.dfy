/**
 * The Dijkstra table of the weighted graph engine, viewed one source row at
 * a time: walks in the cost matrix, the property a finished row has
 * (RowSolved), the recursive path reconstruction of displayPath and
 * displayPathDescrip, and the theorems that a solved row holds shortest
 * distances and that following the predecessors yields a shortest walk.
 */
module DijkstraTable {
  import opened GraphCommon

  /** MAXNODES_M: rows and columns 0..100, index 0 being the unused sentinel. */
  const MaxNodes: int := 101
  /** INT_MAX stands for "no edge" in C and "unreachable" in T. */
  const Infinity: int := IntMax

  /** One cell of T: visited flag, best known distance, predecessor (0 = none). */
  datatype TableType = TableType(visited: bool, dist: int, path: int)

  /** The value makeEmpty and resetVisited write into a cell of T. */
  const Unset: TableType := TableType(false, Infinity, 0)

  predicate IsSquare<X>(a: array2<X>)
  {
    a.Length0 == MaxNodes && a.Length1 == MaxNodes
  }

  /**
   * The cost matrix of a graph with n nodes: every cell holds a weight in
   * 0..INT_MAX, and a real edge (weight below INT_MAX) joins two distinct
   * nodes of 1..n.
   */
  ghost predicate CostsValid(C: array2<int>, n: int)
    reads C
    requires IsSquare(C)
  {
    0 <= n < MaxNodes &&
    forall i, j :: 0 <= i < MaxNodes && 0 <= j < MaxNodes ==>
      0 <= C[i, j] <= Infinity &&
      (C[i, j] < Infinity ==> 1 <= i <= n && 1 <= j <= n && i != j)
  }

  /** w is a walk s = w[0] -> ... -> w[|w|-1] = d along edges of C. */
  ghost predicate IsWalk(C: array2<int>, n: int, w: seq<int>, s: int, d: int)
    reads C
    requires IsSquare(C) && 0 <= n < MaxNodes
  {
    |w| >= 1 && w[0] == s && w[|w| - 1] == d &&
    (forall k :: 0 <= k < |w| ==> 1 <= w[k] <= n) &&
    (forall k :: 0 <= k < |w| - 1 ==> C[w[k], w[k + 1]] < Infinity)
  }

  /** Total cost of the edges of a walk (in unbounded integers). */
  ghost function Weight(C: array2<int>, w: seq<int>): int
    reads C
    requires IsSquare(C)
    requires forall k :: 0 <= k < |w| ==> 0 <= w[k] < MaxNodes
    decreases |w|
  {
    if |w| <= 1 then 0 else Weight(C, w[..|w| - 1]) + C[w[|w| - 2], w[|w| - 1]]
  }

  /**
   * Row s of T after Dijkstra from s over a graph of n nodes: the source is
   * at distance 0 with no predecessor; a node other than s has a finite
   * distance exactly when it has a predecessor; a predecessor p of w is a
   * node with an edge p -> w, dist(w) = dist(p) + C[p][w], and p was
   * reached earlier (rank, the order of visits, strictly decreases along
   * predecessors, so following them ends); and no edge out of a reached
   * node can still be relaxed.
   */
  ghost predicate RowSolved(C: array2<int>, row: seq<TableType>, rank: seq<int>, n: int, s: int)
    reads C
    requires IsSquare(C) && |row| == MaxNodes && |rank| == MaxNodes
  {
    1 <= s <= n < MaxNodes &&
    row[s].dist == 0 && row[s].path == 0 &&
    (forall w :: 1 <= w <= n ==> 0 <= row[w].dist <= Infinity) &&
    (forall w :: 1 <= w <= n && w != s ==> (row[w].dist < Infinity <==> row[w].path != 0)) &&
    (forall w :: 1 <= w <= n && row[w].dist < Infinity ==> 0 <= rank[w] < n) &&
    (forall w {:trigger PredecessorOk(C, row, rank, n, w)} ::
       1 <= w <= n && row[w].path != 0 ==> PredecessorOk(C, row, rank, n, w)) &&
    (forall u, w {:trigger NoShorterVia(C, row, u, w)} :: 1 <= u <= n && 1 <= w <= n ==> NoShorterVia(C, row, u, w))
  }

  /** The edge u -> w cannot lower dist(w) below what the row records. */
  ghost predicate NoShorterVia(C: array2<int>, row: seq<TableType>, u: int, w: int)
    reads C
    requires IsSquare(C) && |row| == MaxNodes && 0 <= u < MaxNodes && 0 <= w < MaxNodes
  {
    row[u].dist < Infinity && C[u, w] < Infinity ==> row[w].dist <= row[u].dist + C[u, w]
  }

  /** A visited u is no farther than an unvisited w. */
  ghost predicate VisitedNoFarther(row: seq<TableType>, u: int, w: int)
    requires |row| == MaxNodes && 0 <= u < MaxNodes && 0 <= w < MaxNodes
  {
    row[u].visited && !row[w].visited ==> row[u].dist <= row[w].dist
  }

  /**
   * The predecessor p of w in row s is a node with an edge p -> w on which
   * w's distance is attained, and p was visited before w.
   */
  ghost predicate PredecessorOk(C: array2<int>, row: seq<TableType>, rank: seq<int>, n: int, w: int)
    reads C
    requires IsSquare(C) && |row| == MaxNodes && |rank| == MaxNodes && 0 <= w < MaxNodes
  {
    var p := row[w].path;
    1 <= p <= n < MaxNodes && C[p, w] < Infinity &&
    row[w].dist == row[p].dist + C[p, w] && rank[p] < rank[w]
  }

  /**
   * displayPath(s, d): the nodes printed before d, i.e. the predecessor
   * chain of d back to the node whose path is 0, in order from s. The C++
   * recursion has no bound; here `fuel` bounds it and None reports that the
   * bound (or a predecessor outside the array) was hit.
   */
  function DisplayPath(row: seq<TableType>, d: int, fuel: nat): (r: Option<seq<int>>)
    requires |row| == MaxNodes && 0 <= d < MaxNodes
    ensures r.Some? ==> |r.value| <= fuel
    ensures r.Some? ==> forall k :: 0 <= k < |r.value| ==> 0 < r.value[k] < MaxNodes
    decreases fuel
  {
    var p := row[d].path;
    if p == 0 then Some([])
    else if fuel == 0 || !(0 < p < MaxNodes) then None
    else match DisplayPath(row, p, fuel - 1)
      case None => None
      case Some(prefix) => Some(prefix + [p])
  }

  /**
   * displayPathDescrip(s, d): the nodes whose descriptions are printed, from
   * s to d; it recurses while s != d and the predecessor is positive.
   */
  function DisplayPathDescrip(row: seq<TableType>, s: int, d: int, fuel: nat): (r: Option<seq<int>>)
    requires |row| == MaxNodes && 0 <= s < MaxNodes && 0 <= d < MaxNodes
    ensures r.Some? ==> |r.value| >= 1 && r.value[|r.value| - 1] == d
    ensures r.Some? ==> forall k :: 0 <= k < |r.value| ==> 0 <= r.value[k] < MaxNodes
    decreases fuel
  {
    var p := row[d].path;
    if s != d && p > 0 then
      if fuel == 0 || p >= MaxNodes then None
      else match DisplayPathDescrip(row, s, p, fuel - 1)
        case None => None
        case Some(prefix) => Some(prefix + [d])
    else Some([d])
  }

  /**
   * Lower bound: in a solved row, no walk from s to d that costs less than
   * INT_MAX is cheaper than dist(s, d).
   */
  lemma {:induction false} WalkBoundsDistance(C: array2<int>, row: seq<TableType>, rank: seq<int>,
                                              n: int, s: int, w: seq<int>, d: int)
    requires IsSquare(C) && |row| == MaxNodes && |rank| == MaxNodes
    requires CostsValid(C, n) && RowSolved(C, row, rank, n, s)
    requires IsWalk(C, n, w, s, d) && Weight(C, w) < Infinity
    ensures row[d].dist <= Weight(C, w)
    decreases |w|
  {
    if |w| > 1 {
      var front := w[..|w| - 1];
      var u := w[|w| - 2];
      WalkFront(C, n, w, s, d);
      assert 0 <= C[u, d];
      WalkBoundsDistance(C, row, rank, n, s, front, u);
      assert NoShorterVia(C, row, u, d);
    }
  }

  /** Dropping the last node of a walk leaves a walk to the node before it, cheaper by that edge. */
  lemma WalkFront(C: array2<int>, n: int, w: seq<int>, s: int, d: int)
    requires IsSquare(C) && 0 <= n < MaxNodes
    requires IsWalk(C, n, w, s, d) && |w| > 1
    ensures IsWalk(C, n, w[..|w| - 1], s, w[|w| - 2])
    ensures Weight(C, w) == Weight(C, w[..|w| - 1]) + C[w[|w| - 2], d]
  {
    var front := w[..|w| - 1];
    forall k | 0 <= k < |front| - 1
      ensures C[front[k], front[k + 1]] < Infinity
    {
      assert front[k] == w[k] && front[k + 1] == w[k + 1];
    }
  }

  /**
   * Upper bound: in a solved row, every reachable d has a predecessor chain
   * that DisplayPath follows within rank(d) steps, and that chain followed
   * by d is a walk from s to d costing exactly dist(s, d).
   */
  lemma {:induction false} PathChainIsWalk(C: array2<int>, row: seq<TableType>, rank: seq<int>,
                                           n: int, s: int, d: int, fuel: nat)
    requires IsSquare(C) && |row| == MaxNodes && |rank| == MaxNodes
    requires CostsValid(C, n) && RowSolved(C, row, rank, n, s)
    requires 1 <= d <= n && row[d].dist < Infinity && rank[d] <= fuel
    ensures DisplayPath(row, d, fuel).Some?
    ensures IsWalk(C, n, DisplayPath(row, d, fuel).value + [d], s, d)
    ensures Weight(C, DisplayPath(row, d, fuel).value + [d]) == row[d].dist
    decreases fuel
  {
    var p := row[d].path;
    if p != 0 {
      PredecessorReached(C, row, rank, n, s, d);
      PathChainIsWalk(C, row, rank, n, s, p, fuel - 1);
      PathStep(C, row, n, s, d, fuel);
    } else {
      assert d == s;
      PathAtSource(C, row, n, s, fuel);
    }
  }

  /** The recorded predecessor of a reachable d is itself reachable and was reached earlier. */
  lemma PredecessorReached(C: array2<int>, row: seq<TableType>, rank: seq<int>, n: int, s: int, d: int)
    requires IsSquare(C) && |row| == MaxNodes && |rank| == MaxNodes
    requires CostsValid(C, n) && RowSolved(C, row, rank, n, s)
    requires 1 <= d <= n && row[d].dist < Infinity && row[d].path != 0
    ensures 1 <= row[d].path <= n && C[row[d].path, d] < Infinity
    ensures row[d].dist == row[row[d].path].dist + C[row[d].path, d]
    ensures row[row[d].path].dist < Infinity && 0 <= rank[row[d].path] < rank[d]
  {
    assert PredecessorOk(C, row, rank, n, d);
    assert 0 <= C[row[d].path, d];
  }

  /** At the source the chain is empty and the walk is the source alone, at cost 0. */
  lemma PathAtSource(C: array2<int>, row: seq<TableType>, n: int, s: int, fuel: nat)
    requires IsSquare(C) && |row| == MaxNodes && 1 <= s <= n < MaxNodes
    requires row[s].path == 0 && row[s].dist == 0
    ensures DisplayPath(row, s, fuel) == Some([])
    ensures IsWalk(C, n, DisplayPath(row, s, fuel).value + [s], s, s)
    ensures Weight(C, DisplayPath(row, s, fuel).value + [s]) == row[s].dist
  {
    assert DisplayPath(row, s, fuel).value + [s] == [s];
  }

  /** One step back along the predecessors: the chain to d is the chain to p, then p. */
  lemma PathStep(C: array2<int>, row: seq<TableType>, n: int, s: int, d: int, fuel: nat)
    requires IsSquare(C) && |row| == MaxNodes && 0 <= n < MaxNodes && 1 <= d <= n && fuel > 0
    requires 1 <= row[d].path <= n && C[row[d].path, d] < Infinity
    requires row[d].dist == row[row[d].path].dist + C[row[d].path, d]
    requires DisplayPath(row, row[d].path, fuel - 1).Some?
    requires IsWalk(C, n, DisplayPath(row, row[d].path, fuel - 1).value + [row[d].path], s, row[d].path)
    requires Weight(C, DisplayPath(row, row[d].path, fuel - 1).value + [row[d].path]) == row[row[d].path].dist
    ensures DisplayPath(row, d, fuel).Some?
    ensures IsWalk(C, n, DisplayPath(row, d, fuel).value + [d], s, d)
    ensures Weight(C, DisplayPath(row, d, fuel).value + [d]) == row[d].dist
  {
    var p := row[d].path;
    var chain := DisplayPath(row, p, fuel - 1).value + [p];
    assert DisplayPath(row, d, fuel).value == chain;
    WalkExtend(C, n, chain, s, p, d);
  }

  /** A walk to u followed by an edge u -> d is a walk to d, costing that edge more. */
  lemma WalkExtend(C: array2<int>, n: int, w: seq<int>, s: int, u: int, d: int)
    requires IsSquare(C) && 0 <= n < MaxNodes
    requires IsWalk(C, n, w, s, u) && 1 <= d <= n && C[u, d] < Infinity
    ensures IsWalk(C, n, w + [d], s, d)
    ensures Weight(C, w + [d]) == Weight(C, w) + C[u, d]
  {
    var w' := w + [d];
    assert w'[..|w'| - 1] == w;
    forall k | 0 <= k < |w'| - 1
      ensures C[w'[k], w'[k + 1]] < Infinity
    {
      if k < |w| - 1 {
        assert w'[k] == w[k] && w'[k + 1] == w[k + 1];
      }
    }
  }

  /**
   * In a solved row the description chain of a reachable d lists the same
   * nodes as displayPath followed by d.
   */
  lemma {:induction false} DescripMatchesPath(C: array2<int>, row: seq<TableType>, rank: seq<int>,
                                              n: int, s: int, d: int, fuel: nat)
    requires IsSquare(C) && |row| == MaxNodes && |rank| == MaxNodes
    requires CostsValid(C, n) && RowSolved(C, row, rank, n, s)
    requires 1 <= d <= n && row[d].dist < Infinity && rank[d] <= fuel
    ensures DisplayPath(row, d, fuel).Some?
    ensures DisplayPathDescrip(row, s, d, fuel) == Some(DisplayPath(row, d, fuel).value + [d])
    decreases fuel
  {
    PathChainIsWalk(C, row, rank, n, s, d, fuel);
    var p := row[d].path;
    if p != 0 {
      PredecessorReached(C, row, rank, n, s, d);
      assert d != s && fuel > 0;
      DescripMatchesPath(C, row, rank, n, s, p, fuel - 1);
      var prefix := DisplayPath(row, p, fuel - 1).value;
      assert DisplayPath(row, d, fuel).value == prefix + [p];
      assert DisplayPathDescrip(row, s, d, fuel) == Some(prefix + [p] + [d]);
    } else {
      assert d == s;
      assert DisplayPath(row, d, fuel).value + [d] == [d];
    }
  }

  /**
   * Dijkstra's promise for one solved row: dist(s, d) is a lower bound on
   * every walk s -> d cheaper than INT_MAX; it is finite exactly when such
   * a walk exists; and then the walk rebuilt from the predecessors attains it.
   */
  lemma ShortestDistance(C: array2<int>, row: seq<TableType>, rank: seq<int>, n: int, s: int, d: int)
    requires IsSquare(C) && |row| == MaxNodes && |rank| == MaxNodes
    requires CostsValid(C, n) && RowSolved(C, row, rank, n, s)
    requires 1 <= d <= n
    ensures forall w :: IsWalk(C, n, w, s, d) && Weight(C, w) < Infinity ==> row[d].dist <= Weight(C, w)
    ensures row[d].dist < Infinity <==> exists w :: IsWalk(C, n, w, s, d) && Weight(C, w) < Infinity
    ensures row[d].dist < Infinity ==>
      DisplayPath(row, d, n).Some? &&
      IsWalk(C, n, DisplayPath(row, d, n).value + [d], s, d) &&
      Weight(C, DisplayPath(row, d, n).value + [d]) == row[d].dist
  {
    forall w | IsWalk(C, n, w, s, d) && Weight(C, w) < Infinity
      ensures row[d].dist <= Weight(C, w)
    {
      WalkBoundsDistance(C, row, rank, n, s, w, d);
    }
    if row[d].dist < Infinity {
      PathChainIsWalk(C, row, rank, n, s, d, n);
    }
  }

  /**
   * One step of setWeight's loop on the cell of w, with dv = dist(v) and
   * cvw = C[v][w]: an unvisited w reached by a real edge from a reached v
   * whose distance strictly drops takes the new distance and predecessor v.
   */
  function Relax(e: TableType, dv: int, cvw: int, v: int): (r: TableType)
    ensures r.visited == e.visited && r.dist <= e.dist
    ensures r != e <==> (!e.visited && cvw < Infinity && dv < Infinity && e.dist > dv + cvw)
    ensures r != e ==> r.dist == dv + cvw && r.path == v
    ensures r == e || r.dist < e.dist
  {
    if !e.visited && cvw < Infinity && dv < Infinity && e.dist > dv + cvw then
      e.(dist := dv + cvw, path := v)
    else e
  }

  /** The nodes of 1..n already visited in a row. */
  ghost function VisitedSet(row: seq<TableType>, n: int): set<int>
    requires |row| == MaxNodes
  {
    set u | 1 <= u <= n && u < MaxNodes && row[u].visited
  }

  /**
   * A predecessor recorded while Dijkstra from s is running: it is already
   * visited, carries the edge on which w's finite distance is attained, and
   * if w is visited too then p was visited first.
   */
  ghost predicate PendingPredOk(C: array2<int>, row: seq<TableType>, rank: seq<int>, n: int, w: int)
    reads C
    requires IsSquare(C) && |row| == MaxNodes && |rank| == MaxNodes && 0 <= w < MaxNodes
  {
    var p := row[w].path;
    1 <= p <= n < MaxNodes && row[p].visited && C[p, w] < Infinity && row[w].dist < Infinity &&
    row[w].dist == row[p].dist + C[p, w] && (row[w].visited ==> rank[p] < rank[w])
  }

  /**
   * The loop invariant of findShortestPath's numVisits loop for source s
   * after k rounds: distances stay in 0..INT_MAX with the source at 0; every
   * finite distance but the source's has a pending predecessor; visited
   * nodes carry ranks below k; no edge out of a visited node can be
   * relaxed; visited distances are at most unvisited ones; and either k
   * nodes are visited or every unvisited node is unreachable.
   */
  ghost predicate InProgress(C: array2<int>, row: seq<TableType>, rank: seq<int>, n: int, s: int, k: int)
    reads C
    requires IsSquare(C) && |row| == MaxNodes && |rank| == MaxNodes
  {
    1 <= s <= n < MaxNodes && 0 <= k <= n &&
    row[0].dist == Infinity &&
    row[s].dist == 0 && row[s].path == 0 &&
    (forall w :: 1 <= w <= n ==> 0 <= row[w].dist <= Infinity) &&
    (forall w :: 1 <= w <= n && w != s && row[w].dist < Infinity ==> row[w].path != 0) &&
    (forall w {:trigger PendingPredOk(C, row, rank, n, w)} ::
       1 <= w <= n && row[w].path != 0 ==> PendingPredOk(C, row, rank, n, w)) &&
    (forall u :: 1 <= u <= n && row[u].visited ==> 0 <= rank[u] < k) &&
    (forall u, w {:trigger NoShorterVia(C, row, u, w)} ::
       1 <= u <= n && 1 <= w <= n && row[u].visited ==> NoShorterVia(C, row, u, w)) &&
    (forall u, w {:trigger VisitedNoFarther(row, u, w)} ::
       1 <= u <= n && 1 <= w <= n ==> VisitedNoFarther(row, u, w)) &&
    (|VisitedSet(row, n)| == k || forall w :: 1 <= w <= n && !row[w].visited ==> row[w].dist == Infinity)
  }

  lemma SubsetCardinality(A: set<int>, B: set<int>)
    requires A <= B
    ensures |A| <= |B|
  {
    assert B * A == A;
    assert |B - A| == |B| - |A|;
  }

  /** n distinct nodes of 1..n are all of them. */
  lemma FullSet(S: set<int>, n: nat)
    requires forall x :: x in S ==> 1 <= x <= n
    requires |S| >= n
    ensures forall i :: 1 <= i <= n ==> i in S
  {
    forall i | 1 <= i <= n
      ensures i in S
    {
      if i !in S {
        SubsetCardinality(S, Nodes(n) - {i});
        assert false;
      }
    }
  }

  /** The row once the vertex v chosen by findMinVertex is marked visited. */
  function Mark(row: seq<TableType>, v: int): (r: seq<TableType>)
    requires |row| == MaxNodes && 0 <= v < MaxNodes
    ensures |r| == MaxNodes && r[v].visited
    ensures forall w :: 0 <= w < MaxNodes && w != v ==> r[w] == row[w]
    ensures r[v].dist == row[v].dist && r[v].path == row[v].path
  {
    row[v := row[v].(visited := true)]
  }

  /**
   * v is the result findMinVertex gives on this row: 0 when no unvisited
   * node of 1..n is reachable, otherwise an unvisited reachable node of
   * least distance.
   */
  ghost predicate IsMinVertex(row: seq<TableType>, n: int, v: int)
    requires |row| == MaxNodes
  {
    0 <= v <= n < MaxNodes &&
    (v == 0 ==> forall i :: 1 <= i <= n && !row[i].visited ==> row[i].dist >= Infinity) &&
    (v != 0 ==>
       !row[v].visited && row[v].dist < Infinity &&
       forall i :: 1 <= i <= n && !row[i].visited ==> row[v].dist <= row[i].dist)
  }

  /** after is before with setWeight(s, v) applied: every node of 1..n relaxed over v. */
  ghost predicate IsRelaxed(C: array2<int>, before: seq<TableType>, after: seq<TableType>, n: int, v: int)
    reads C
    requires IsSquare(C) && |before| == MaxNodes && |after| == MaxNodes && 0 <= v < MaxNodes
  {
    forall w :: 0 <= w < MaxNodes ==>
      after[w] == if 1 <= w <= n then Relax(before[w], before[v].dist, C[v, w], v) else before[w]
  }

  /** The start of the numVisits loop: only the source is reached, at distance 0. */
  lemma StartInProgress(C: array2<int>, row: seq<TableType>, rank: seq<int>, n: int, s: int)
    requires IsSquare(C) && |row| == MaxNodes && |rank| == MaxNodes
    requires CostsValid(C, n) && 1 <= s <= n && row[0].dist == Infinity
    requires forall w :: 1 <= w <= n ==> row[w] == if w == s then Unset.(dist := 0) else Unset
    ensures InProgress(C, row, rank, n, s, 0)
  {
    assert VisitedSet(row, n) == {};
  }

  /** One round of the numVisits loop (select, mark, relax) keeps the invariant. */
  lemma StepPreserves(C: array2<int>, row: seq<TableType>, rank: seq<int>, n: int, s: int, k: int,
                      v: int, next: seq<TableType>)
    requires IsSquare(C) && |row| == MaxNodes && |rank| == MaxNodes && |next| == MaxNodes
    requires CostsValid(C, n) && InProgress(C, row, rank, n, s, k) && k < n
    requires IsMinVertex(row, n, v)
    requires IsRelaxed(C, Mark(row, v), next, n, v)
    ensures InProgress(C, next, rank[v := k], n, s, k + 1)
  {
    StepKeepsVisited(C, row, rank, n, s, k, v, next);
    StepKeepsPending(C, row, rank, n, s, k, v, next);
    StepKeepsRelaxed(C, row, rank, n, s, k, v, next);
    StepKeepsOrder(C, row, rank, n, s, k, v, next);
    StepCounts(C, row, rank, n, s, k, v, next);
  }

  /** Relaxing touches only unvisited nodes, so every visited node keeps its cell. */
  lemma StepKeepsVisited(C: array2<int>, row: seq<TableType>, rank: seq<int>, n: int, s: int, k: int,
                         v: int, next: seq<TableType>)
    requires IsSquare(C) && |row| == MaxNodes && |rank| == MaxNodes && |next| == MaxNodes
    requires CostsValid(C, n) && InProgress(C, row, rank, n, s, k) && k < n
    requires IsMinVertex(row, n, v)
    requires IsRelaxed(C, Mark(row, v), next, n, v)
    ensures forall u :: 0 <= u < MaxNodes && Mark(row, v)[u].visited ==> next[u] == Mark(row, v)[u]
    ensures forall u :: 0 <= u < MaxNodes ==> next[u].visited == Mark(row, v)[u].visited
    ensures forall u :: 0 <= u < MaxNodes ==> next[u].dist <= row[u].dist
    ensures v == 0 ==> next == Mark(row, v)
    ensures next[0] == row[0] || v == 0
    ensures next[s].dist == 0 && next[s].path == 0
    ensures forall w :: 1 <= w <= n ==> 0 <= next[w].dist <= Infinity
    ensures forall w :: 1 <= w <= n && w != s && next[w].dist < Infinity ==> next[w].path != 0
  {
    var marked := Mark(row, v);
    if v == 0 {
      forall w | 0 <= w < MaxNodes
        ensures next[w] == marked[w]
      {
        assert C[0, w] == Infinity;
      }
    }
  }

  lemma StepKeepsPending(C: array2<int>, row: seq<TableType>, rank: seq<int>, n: int, s: int, k: int,
                         v: int, next: seq<TableType>)
    requires IsSquare(C) && |row| == MaxNodes && |rank| == MaxNodes && |next| == MaxNodes
    requires CostsValid(C, n) && InProgress(C, row, rank, n, s, k) && k < n
    requires IsMinVertex(row, n, v)
    requires IsRelaxed(C, Mark(row, v), next, n, v)
    ensures forall w {:trigger PendingPredOk(C, next, rank[v := k], n, w)} ::
      1 <= w <= n && next[w].path != 0 ==> PendingPredOk(C, next, rank[v := k], n, w)
    ensures forall u :: 1 <= u <= n && next[u].visited ==> 0 <= rank[v := k][u] < k + 1
  {
    StepKeepsVisited(C, row, rank, n, s, k, v, next);
    var marked := Mark(row, v);
    var rank' := rank[v := k];
    forall w | 1 <= w <= n && next[w].path != 0
      ensures PendingPredOk(C, next, rank', n, w)
    {
      if next[w] == marked[w] {
        assert PendingPredOk(C, row, rank, n, w);
        var p := row[w].path;
        assert p != v;
        assert next[p] == row[p];
      } else {
        assert next[v] == marked[v];
      }
    }
  }

  lemma StepKeepsRelaxed(C: array2<int>, row: seq<TableType>, rank: seq<int>, n: int, s: int, k: int,
                         v: int, next: seq<TableType>)
    requires IsSquare(C) && |row| == MaxNodes && |rank| == MaxNodes && |next| == MaxNodes
    requires CostsValid(C, n) && InProgress(C, row, rank, n, s, k) && k < n
    requires IsMinVertex(row, n, v)
    requires IsRelaxed(C, Mark(row, v), next, n, v)
    ensures forall u, w {:trigger NoShorterVia(C, next, u, w)} ::
       1 <= u <= n && 1 <= w <= n && next[u].visited ==> NoShorterVia(C, next, u, w)
  {
    StepKeepsVisited(C, row, rank, n, s, k, v, next);
    var marked := Mark(row, v);
    forall u, w | 1 <= u <= n && 1 <= w <= n && next[u].visited
      ensures NoShorterVia(C, next, u, w)
    {
      if u != v {
        assert next[u] == row[u];
        assert NoShorterVia(C, row, u, w);
      } else if !marked[w].visited {
        assert next[w] == Relax(marked[w], row[v].dist, C[v, w], v);
      } else if w != v {
        assert VisitedNoFarther(row, w, v);
      }
    }
  }

  lemma StepKeepsOrder(C: array2<int>, row: seq<TableType>, rank: seq<int>, n: int, s: int, k: int,
                       v: int, next: seq<TableType>)
    requires IsSquare(C) && |row| == MaxNodes && |rank| == MaxNodes && |next| == MaxNodes
    requires CostsValid(C, n) && InProgress(C, row, rank, n, s, k) && k < n
    requires IsMinVertex(row, n, v)
    requires IsRelaxed(C, Mark(row, v), next, n, v)
    ensures forall u, w {:trigger VisitedNoFarther(next, u, w)} ::
       1 <= u <= n && 1 <= w <= n ==> VisitedNoFarther(next, u, w)
  {
    StepKeepsVisited(C, row, rank, n, s, k, v, next);
    var marked := Mark(row, v);
    forall u, w | 1 <= u <= n && 1 <= w <= n && next[u].visited && !next[w].visited
      ensures next[u].dist <= next[w].dist
    {
      assert next[w] == Relax(marked[w], row[v].dist, C[v, w], v);
      if u != v {
        assert next[u] == row[u];
        assert VisitedNoFarther(row, u, w);
        if v != 0 {
          assert VisitedNoFarther(row, u, v);
        }
      }
    }
  }

  lemma StepCounts(C: array2<int>, row: seq<TableType>, rank: seq<int>, n: int, s: int, k: int,
                   v: int, next: seq<TableType>)
    requires IsSquare(C) && |row| == MaxNodes && |rank| == MaxNodes && |next| == MaxNodes
    requires CostsValid(C, n) && InProgress(C, row, rank, n, s, k) && k < n
    requires IsMinVertex(row, n, v)
    requires IsRelaxed(C, Mark(row, v), next, n, v)
    ensures |VisitedSet(next, n)| == k + 1 ||
            forall w :: 1 <= w <= n && !next[w].visited ==> next[w].dist == Infinity
  {
    StepKeepsVisited(C, row, rank, n, s, k, v, next);
    MarkCounts(row, next, n, v);
  }

  /** Marking one more node of 1..n visited grows the visited set by exactly that node. */
  lemma MarkCounts(row: seq<TableType>, next: seq<TableType>, n: int, v: int)
    requires |row| == MaxNodes && |next| == MaxNodes && 0 <= v <= n < MaxNodes
    requires v != 0 ==> !row[v].visited
    requires forall u :: 0 <= u < MaxNodes ==> next[u].visited == (row[u].visited || u == v)
    ensures v == 0 ==> VisitedSet(next, n) == VisitedSet(row, n)
    ensures v != 0 ==> |VisitedSet(next, n)| == |VisitedSet(row, n)| + 1
  {
    if v == 0 {
      assert VisitedSet(next, n) == VisitedSet(row, n);
    } else {
      assert v !in VisitedSet(row, n);
      assert VisitedSet(next, n) == VisitedSet(row, n) + {v};
    }
  }

  /** After n rounds every reachable node is visited and the row is solved. */
  lemma FinishedIsSolved(C: array2<int>, row: seq<TableType>, rank: seq<int>, n: int, s: int)
    requires IsSquare(C) && |row| == MaxNodes && |rank| == MaxNodes
    requires CostsValid(C, n) && InProgress(C, row, rank, n, s, n)
    ensures RowSolved(C, row, rank, n, s)
    ensures forall w :: 1 <= w <= n && row[w].dist < Infinity ==> row[w].visited
  {
    if |VisitedSet(row, n)| == n {
      FullSet(VisitedSet(row, n), n);
    }
    forall w | 1 <= w <= n && row[w].dist < Infinity
      ensures row[w].visited
    {
      if |VisitedSet(row, n)| == n {
        assert w in VisitedSet(row, n);
      }
    }
    forall w | 1 <= w <= n && row[w].path != 0
      ensures PredecessorOk(C, row, rank, n, w) && row[w].dist < Infinity
    {
      assert PendingPredOk(C, row, rank, n, w);
    }
    forall u, w | 1 <= u <= n && 1 <= w <= n
      ensures NoShorterVia(C, row, u, w)
    {
      if row[u].dist < Infinity {
        assert row[u].visited;
      }
    }
  }

  /**
   * Two solved rows for the same source over the same cost matrix agree on
   * every distance: what Dijkstra leaves in dist depends only on C and n.
   */
  lemma DistancesDetermined(C: array2<int>, row1: seq<TableType>, rank1: seq<int>,
                            row2: seq<TableType>, rank2: seq<int>, n: int, s: int)
    requires IsSquare(C) && |row1| == MaxNodes && |rank1| == MaxNodes
    requires |row2| == MaxNodes && |rank2| == MaxNodes
    requires CostsValid(C, n) && RowSolved(C, row1, rank1, n, s) && RowSolved(C, row2, rank2, n, s)
    ensures forall d :: 1 <= d <= n ==> row1[d].dist == row2[d].dist
  {
    forall d | 1 <= d <= n
      ensures row1[d].dist == row2[d].dist
    {
      NoFartherThan(C, row1, rank1, row2, rank2, n, s, d);
      NoFartherThan(C, row2, rank2, row1, rank1, n, s, d);
    }
  }

  /** Half of DistancesDetermined: the walk rebuilt from row1 bounds row2's distance. */
  lemma NoFartherThan(C: array2<int>, row1: seq<TableType>, rank1: seq<int>,
                      row2: seq<TableType>, rank2: seq<int>, n: int, s: int, d: int)
    requires IsSquare(C) && |row1| == MaxNodes && |rank1| == MaxNodes
    requires |row2| == MaxNodes && |rank2| == MaxNodes
    requires CostsValid(C, n) && RowSolved(C, row1, rank1, n, s) && RowSolved(C, row2, rank2, n, s)
    requires 1 <= d <= n
    ensures row2[d].dist <= row1[d].dist
  {
    if row1[d].dist < Infinity {
      PathChainIsWalk(C, row1, rank1, n, s, d, n);
      WalkBoundsDistance(C, row2, rank2, n, s, DisplayPath(row1, d, n).value + [d], d);
    }
  }
}
