/**
 * GraphM: the weighted, directed graph engine. A cost matrix C, the Dijkstra
 * table T of {visited, dist, path} per (source, destination), and the node
 * count. Every successful edge edit reruns all-pairs Dijkstra from scratch.
 */
module GraphMatrix {
  import opened GraphCommon
  import opened DijkstraTable

  /** One edge line of the input: source, destination, distance. */
  datatype EdgeRecord = EdgeRecord(source: Int32, destination: Int32, distance: Int32)

  /** What display reports for one (source, destination) pair. */
  datatype PathReport =
    | NoPath
    | Path(dist: int, nodes: Option<seq<int>>, described: Option<seq<int>>)

  /** The argument check of insertEdge. */
  predicate InsertValid(n: int, source: int, destination: int, distance: int)
  {
    source > 0 && source <= n && distance >= 0 &&
    destination > 0 && destination <= n && source != destination
  }

  /** The argument check of removeEdge: the same range and self-loop tests, no weight. */
  predicate RemoveValid(n: int, source: int, destination: int)
  {
    source > 0 && source <= n && destination > 0 && destination <= n && source != destination
  }

  /** The field buildGraph's read loop tests against 0. */
  function RecordSource(e: EdgeRecord): int
  {
    e.source
  }

  /**
   * C[i][j] once the records are fed to insertEdge on an empty n-node
   * matrix: the weight of the last valid record for (i, j), else INT_MAX.
   */
  function CostAfter(n: int, recs: seq<EdgeRecord>, i: int, j: int): (c: int)
    ensures 0 <= c <= Infinity
    ensures c < Infinity ==> 1 <= i <= n && 1 <= j <= n && i != j
    ensures c != Infinity ==>
      exists k :: 0 <= k < |recs| && recs[k].source == i && recs[k].destination == j && recs[k].distance == c
  {
    if recs == [] then Infinity
    else
      var last := recs[|recs| - 1];
      if InsertValid(n, last.source, last.destination, last.distance) &&
         last.source == i && last.destination == j
      then last.distance
      else CostAfter(n, recs[..|recs| - 1], i, j)
  }

  /** Some record is accepted by insertEdge on an n-node graph. */
  predicate AnyInserted(n: int, recs: seq<EdgeRecord>)
  {
    exists k :: 0 <= k < |recs| && InsertValid(n, recs[k].source, recs[k].destination, recs[k].distance)
  }

  /** One more record: it decides C[i][j] if insertEdge accepts it for (i, j), else the earlier ones do. */
  lemma CostAfterAppend(n: int, recs: seq<EdgeRecord>, r: EdgeRecord, i: int, j: int)
    ensures CostAfter(n, recs + [r], i, j) ==
      if InsertValid(n, r.source, r.destination, r.distance) && r.source == i && r.destination == j
      then r.distance as int else CostAfter(n, recs, i, j)
  {
    assert (recs + [r])[..|recs|] == recs;
  }

  /** One more record: some record is accepted exactly when an earlier one or the new one is. */
  lemma AnyInsertedAppend(n: int, recs: seq<EdgeRecord>, r: EdgeRecord)
    ensures AnyInserted(n, recs + [r]) <==>
      AnyInserted(n, recs) || InsertValid(n, r.source, r.destination, r.distance)
  {
    if AnyInserted(n, recs) {
      var k :| 0 <= k < |recs| && InsertValid(n, recs[k].source, recs[k].destination, recs[k].distance);
      assert (recs + [r])[k] == recs[k];
    }
    if AnyInserted(n, recs + [r]) {
      var k :| 0 <= k < |recs| + 1 &&
        InsertValid(n, (recs + [r])[k].source, (recs + [r])[k].destination, (recs + [r])[k].distance);
      if k < |recs| {
        assert (recs + [r])[k] == recs[k];
      }
    }
    assert (recs + [r])[|recs|] == r;
  }

  /**
   * Row i of an n-node table is unreached outside the used square: every
   * cell (i, j) with i or j outside 1..n has dist INT_MAX and path 0.
   */
  ghost predicate RowUnreachedOutside(row: seq<TableType>, i: int, n: int)
    requires |row| == MaxNodes
  {
    forall j :: 0 <= j < MaxNodes && !(1 <= i <= n && 1 <= j <= n) ==> row[j].dist == Infinity && row[j].path == 0
  }

  class GraphM {
    /** Cost array, the adjacency matrix; INT_MAX means no edge. */
    var C: array2<int>
    /** The Dijkstra table: T[s][d] = {visited, dist, path}. */
    var T: array2<TableType>
    /** Number of nodes, 1..size in use. */
    var size: int
    /** T read row by row (proof only); every write to T is mirrored here. */
    ghost var Rows: seq<seq<TableType>>
    /** Visit number of each (source, node) in the last Dijkstra run (proof only). */
    ghost var Rank: seq<seq<int>>

    /** Rows is a 101 x 101 table. */
    ghost predicate RowsShape()
      reads this
    {
      |Rows| == MaxNodes && forall i :: 0 <= i < MaxNodes ==> |Rows[i]| == MaxNodes
    }

    /** Rows holds exactly the cells of T. */
    ghost predicate Mirrors()
      reads this, T
    {
      IsSquare(T) && RowsShape() &&
      forall i, j :: 0 <= i < MaxNodes && 0 <= j < MaxNodes ==> Rows[i][j] == T[i, j]
    }

    /** The state makeEmpty leaves: no edges, every table cell unset. */
    ghost predicate IsEmpty()
      reads this, C
      requires IsSquare(C) && RowsShape()
    {
      forall i, j :: 0 <= i < MaxNodes && 0 <= j < MaxNodes ==> C[i, j] == Infinity && Rows[i][j] == Unset
    }

    /**
     * Every cell of T outside 1..size x 1..size, the sentinel row and
     * column 0 included, keeps the dist INT_MAX and path 0 makeEmpty left:
     * no operation writes them (their visited flag may be set).
     */
    ghost predicate OutsideUnreached()
      reads this
      requires RowsShape()
    {
      forall i :: 0 <= i < MaxNodes ==> RowUnreachedOutside(Rows[i], i, size)
    }

    /**
     * Layout facts every operation keeps: the arrays are 101 x 101, C is a
     * valid cost matrix for size nodes, T is unreached outside the used
     * square, and a graph of size 0 is in its empty state.
     */
    ghost predicate Shape()
      reads this, C, T
    {
      IsSquare(C) && Mirrors() && 0 <= size < MaxNodes &&
      |Rank| == MaxNodes && (forall i :: 0 <= i < MaxNodes ==> |Rank[i]| == MaxNodes) &&
      CostsValid(C, size) && OutsideUnreached() &&
      (size == 0 ==> IsEmpty())
    }

    /** Every row 1..size of T holds the result of Dijkstra over C. */
    ghost predicate Solved()
      reads this, C, T
      requires Shape()
    {
      forall s :: 1 <= s <= size ==> RowSolved(C, Rows[s], Rank[s], size, s)
    }

    /** No Dijkstra has run since the last reset: rows 1..size are unset. */
    ghost predicate Cleared()
      reads this, C, T
      requires Shape()
    {
      forall i, j :: 1 <= i <= size && 1 <= j <= size ==> Rows[i][j] == Unset
    }

    ghost predicate Valid()
      reads this, C, T
    {
      Shape() && (Solved() || Cleared())
    }

    /** GraphM(): allocate the arrays and makeEmpty. */
    constructor ()
      ensures Valid() && size == 0 && IsEmpty() && fresh(C) && fresh(T)
    {
      C := new int[MaxNodes, MaxNodes];
      T := new TableType[MaxNodes, MaxNodes];
      size := 0;
      Rows := [];
      Rank := seq(MaxNodes, _ => seq(MaxNodes, _ => 0));
      new;
      MakeEmpty();
    }

    /** makeEmpty: size 0, every C cell INT_MAX, every T cell unset. */
    method MakeEmpty()
      requires IsSquare(C) && IsSquare(T)
      modifies this`size, this`Rows, C, T
      ensures size == 0 && Mirrors() && IsEmpty()
    {
      size := 0;
      for i := 0 to MaxNodes
        invariant size == 0
        invariant forall r, j :: 0 <= r < i && 0 <= j < MaxNodes ==> C[r, j] == Infinity && T[r, j] == Unset
      {
        for j := 0 to MaxNodes
          invariant size == 0
          invariant forall r, k :: 0 <= r < i && 0 <= k < MaxNodes ==> C[r, k] == Infinity && T[r, k] == Unset
          invariant forall k :: 0 <= k < j ==> C[i, k] == Infinity && T[i, k] == Unset
        {
          C[i, j] := Infinity;
          T[i, j] := Unset;
        }
      }
      var blank := seq(MaxNodes, _ => Unset);
      Rows := seq(MaxNodes, _ => blank);
      assert forall i, j :: 0 <= i < MaxNodes && 0 <= j < MaxNodes ==> Rows[i][j] == Unset;
    }

    /** resetVisited: rows and columns 1..size of T back to unset, the rest untouched. */
    method ResetVisited()
      requires Mirrors() && 0 <= size < MaxNodes
      modifies T, this`Rows
      ensures Mirrors()
      ensures forall i, j :: 0 <= i < MaxNodes && 0 <= j < MaxNodes ==>
        Rows[i][j] == if 1 <= i <= size && 1 <= j <= size then Unset else old(Rows[i][j])
    {
      for i := 1 to size + 1
        invariant Mirrors()
        invariant forall r, j :: 0 <= r < MaxNodes && 0 <= j < MaxNodes ==>
          Rows[r][j] == if 1 <= r < i && 1 <= j <= size then Unset else old(Rows[r][j])
      {
        for j := 1 to size + 1
          invariant Mirrors()
          invariant forall r, k :: 0 <= r < MaxNodes && 0 <= k < MaxNodes ==>
            Rows[r][k] == if (1 <= r < i && 1 <= k <= size) || (r == i && 1 <= k < j) then Unset else old(Rows[r][k])
        {
          T[i, j] := T[i, j].(dist := Infinity, path := 0, visited := false);
          Rows := Rows[i := Rows[i][j := T[i, j]]];
        }
      }
    }

    /**
     * findMinVertex(source): the lowest-numbered unvisited node of 1..size
     * whose distance is finite and strictly least among the unvisited, or
     * the sentinel 0 when every unvisited node is at INT_MAX (the scan starts
     * from T[source][0], whose distance is INT_MAX).
     */
    method FindMinVertex(source: int) returns (v: int)
      requires Mirrors() && 0 <= size < MaxNodes && 0 <= source < MaxNodes
      requires Rows[source][0].dist == Infinity
      ensures IsMinVertex(Rows[source], size, v)
      ensures v != 0 ==> forall i :: 1 <= i < v && !Rows[source][i].visited ==> Rows[source][v].dist < Rows[source][i].dist
    {
      ghost var row := Rows[source];
      v := 0;
      for i := 1 to size + 1
        invariant 0 <= v < i
        invariant v != 0 ==> !row[v].visited && row[v].dist < Infinity
        invariant forall k :: 1 <= k < i && !row[k].visited ==> row[v].dist <= row[k].dist
        invariant forall k :: 1 <= k < v && !row[k].visited ==> row[v].dist < row[k].dist
      {
        if !T[source, i].visited {
          if T[source, i].dist < T[source, v].dist {
            v := i;
          }
        }
      }
    }

    /**
     * setWeight(source, v): relax every node w of 1..size over the edge
     * v -> w; only row source, columns 1..size, can change.
     */
    method SetWeight(source: int, v: int)
      requires Mirrors() && IsSquare(C) && CostsValid(C, size)
      requires 1 <= source <= size && 0 <= v <= size
      modifies T, this`Rows
      ensures Mirrors()
      ensures IsRelaxed(C, old(Rows[source]), Rows[source], size, v)
      ensures forall r :: 0 <= r < MaxNodes && r != source ==> Rows[r] == old(Rows[r])
    {
      ghost var row := Rows[source];
      for w := 1 to size + 1
        invariant Mirrors()
        invariant forall r :: 0 <= r < MaxNodes && r != source ==> Rows[r] == old(Rows[r])
        invariant Rows[source][v] == row[v]
        invariant forall k :: 0 <= k < MaxNodes ==>
          Rows[source][k] == if 1 <= k < w then Relax(row[k], row[v].dist, C[v, k], v) else row[k]
      {
        if !T[source, w].visited && C[v, w] < Infinity && T[source, v].dist < Infinity {
          if T[source, w].dist > T[source, v].dist + C[v, w] {
            T[source, w] := T[source, w].(dist := T[source, v].dist + C[v, w], path := v);
            Rows := Rows[source := Rows[source][w := T[source, w]]];
          }
        }
      }
    }

    /**
     * One pass of findShortestPath's outer loop: Dijkstra from source over
     * a row that resetVisited left unset. Afterwards the row is solved and
     * every other row of T is as it was.
     */
    method FindShortestPathFrom(source: int)
      requires Shape() && 1 <= source <= size
      requires forall j :: 1 <= j <= size ==> Rows[source][j] == Unset
      modifies T, this`Rows, this`Rank
      ensures Shape()
      ensures RowSolved(C, Rows[source], Rank[source], size, source)
      ensures forall r :: 0 <= r < MaxNodes && r != source ==> Rows[r] == old(Rows[r]) && Rank[r] == old(Rank[r])
    {
      T[source, source] := T[source, source].(dist := 0);
      Rows := Rows[source := Rows[source][source := T[source, source]]];
      StartInProgress(C, Rows[source], Rank[source], size, source);
      var numVisits := 0;
      while numVisits < size
        invariant Mirrors() && |Rank| == MaxNodes && |Rank[source]| == MaxNodes
        invariant 0 <= numVisits <= size
        invariant InProgress(C, Rows[source], Rank[source], size, source, numVisits)
        invariant forall r :: 0 <= r < MaxNodes && r != source ==> Rows[r] == old(Rows[r]) && Rank[r] == old(Rank[r])
        invariant RowUnreachedOutside(Rows[source], source, size)
      {
        VisitNearest(source, numVisits);
        numVisits := numVisits + 1;
      }
      FinishedIsSolved(C, Rows[source], Rank[source], size, source);
    }

    /**
     * One round of the numVisits loop: v = findMinVertex(source), mark v
     * visited, setWeight(source, v). Only row source of T changes.
     */
    method VisitNearest(source: int, numVisits: int)
      requires Mirrors() && IsSquare(C) && 0 <= size < MaxNodes && CostsValid(C, size)
      requires 1 <= source <= size && numVisits < size
      requires |Rank| == MaxNodes && |Rank[source]| == MaxNodes
      requires InProgress(C, Rows[source], Rank[source], size, source, numVisits)
      modifies T, this`Rows, this`Rank
      ensures Mirrors() && |Rank| == MaxNodes && |Rank[source]| == MaxNodes
      ensures InProgress(C, Rows[source], Rank[source], size, source, numVisits + 1)
      ensures forall r :: 0 <= r < MaxNodes && r != source ==> Rows[r] == old(Rows[r]) && Rank[r] == old(Rank[r])
      ensures RowUnreachedOutside(old(Rows[source]), source, size) ==> RowUnreachedOutside(Rows[source], source, size)
    {
      ghost var row := Rows[source];
      ghost var rank := Rank[source];
      var v := FindMinVertex(source);
      MarkVisited(source, v);
      Rank := Rank[source := rank[v := numVisits]];
      SetWeight(source, v);
      StepPreserves(C, row, rank, size, source, numVisits, v, Rows[source]);
    }

    /** T[source][v].visited = true: row source becomes Mark(row, v), nothing else changes. */
    method MarkVisited(source: int, v: int)
      requires Mirrors() && 0 <= source < MaxNodes && 0 <= v < MaxNodes
      modifies T, this`Rows
      ensures Mirrors()
      ensures Rows[source] == Mark(old(Rows[source]), v)
      ensures forall r :: 0 <= r < MaxNodes && r != source ==> Rows[r] == old(Rows[r])
    {
      T[source, v] := T[source, v].(visited := true);
      Rows := Rows[source := Mark(Rows[source], v)];
    }

    /**
     * findShortestPath: resetVisited, then Dijkstra from every source
     * 1..size. Afterwards every row of T is solved for the current C.
     */
    method FindShortestPath()
      requires Shape()
      modifies T, this`Rows, this`Rank
      ensures Shape() && Solved()
    {
      ResetVisited();
      for source := 1 to size + 1
        invariant Shape()
        invariant forall r :: 1 <= r < source ==> RowSolved(C, Rows[r], Rank[r], size, r)
        invariant forall r, j :: source <= r <= size && 1 <= j <= size ==> Rows[r][j] == Unset
      {
        FindShortestPathFrom(source);
      }
    }

    /**
     * insertEdge: when the arguments are valid, C[source][destination]
     * becomes distance and all-pairs Dijkstra reruns; otherwise nothing
     * changes. Returns whether the arguments were valid.
     */
    method InsertEdge(source: Int32, destination: Int32, distance: Int32) returns (ok: bool)
      requires Valid()
      modifies C, T, this`Rows, this`Rank
      ensures Valid() && size == old(size)
      ensures ok == InsertValid(size, source, destination, distance)
      ensures forall i, j :: 0 <= i < MaxNodes && 0 <= j < MaxNodes ==>
        C[i, j] == if ok && i == source && j == destination then distance as int else old(C[i, j])
      ensures ok ==> Solved()
      ensures !ok ==> unchanged(this, C, T)
    {
      ok := InsertValid(size, source, destination, distance);
      if ok {
        C[source, destination] := distance;
        FindShortestPath();
      }
    }

    /**
     * removeEdge: when the arguments are valid, C[source][destination]
     * becomes INT_MAX (no edge) and all-pairs Dijkstra reruns; otherwise
     * nothing changes. Returns whether the arguments were valid.
     */
    method RemoveEdge(source: Int32, destination: Int32) returns (ok: bool)
      requires Valid()
      modifies C, T, this`Rows, this`Rank
      ensures Valid() && size == old(size)
      ensures ok == RemoveValid(size, source, destination)
      ensures forall i, j :: 0 <= i < MaxNodes && 0 <= j < MaxNodes ==>
        C[i, j] == if ok && i == source && j == destination then Infinity else old(C[i, j])
      ensures ok ==> Solved()
      ensures !ok ==> unchanged(this, C, T)
    {
      ok := RemoveValid(size, source, destination);
      if ok {
        C[source, destination] := Infinity;
        FindShortestPath();
      }
    }

    /**
     * buildGraph: for a node count in 1..100, reset the graph unless it is
     * already empty, take nodeCount nodes, and feed the edge records to
     * insertEdge up to the first record with source 0. Any other count
     * leaves the graph as it was.
     */
    method BuildGraph(nodeCount: Int32, records: seq<EdgeRecord>)
      requires Valid()
      modifies this`size, C, T, this`Rows, this`Rank
      ensures Valid()
      ensures !(0 < nodeCount < MaxNodes) ==> unchanged(this, C, T)
      ensures 0 < nodeCount < MaxNodes ==> size == nodeCount as int
      ensures 0 < nodeCount < MaxNodes ==> forall i, j :: 0 <= i < MaxNodes && 0 <= j < MaxNodes ==>
        C[i, j] == CostAfter(nodeCount as int, BeforeZero(records, RecordSource), i, j)
      ensures 0 < nodeCount < MaxNodes && AnyInserted(nodeCount as int, BeforeZero(records, RecordSource)) ==> Solved()
      ensures 0 < nodeCount < MaxNodes && !AnyInserted(nodeCount as int, BeforeZero(records, RecordSource)) ==> Cleared()
    {
      if nodeCount > 0 && nodeCount < MaxNodes as Int32 {
        if size != 0 {
          MakeEmpty();
        }
        size := nodeCount as int;
        EmptyIsBuilt();
        ReadRecords(nodeCount as int, records);
      }
    }

    /**
     * buildGraph's read loop: feed the records to insertEdge until the
     * first one with source 0 (or the end of the input).
     */
    method ReadRecords(ghost n: int, records: seq<EdgeRecord>)
      requires Built(n, [])
      modifies C, T, this`Rows, this`Rank
      ensures Built(n, BeforeZero(records, RecordSource))
    {
      var i := 0;
      assert records[..i] == [];
      while i < |records| && records[i].source != 0
        invariant 0 <= i <= |records|
        invariant forall k :: 0 <= k < i ==> RecordSource(records[k]) != 0
        invariant Built(n, records[..i])
      {
        InsertRecord(n, records[..i], records[i]);
        assert records[..i + 1] == records[..i] + [records[i]];
        i := i + 1;
      }
      BeforeZeroIsPrefix(records, RecordSource, i);
    }

    /**
     * The state after buildGraph has fed the records done to insertEdge on
     * an empty n-node graph: C is CostAfter(n, done), and the table is
     * solved once some record was accepted, and still unset before that.
     */
    ghost predicate Built(n: int, done: seq<EdgeRecord>)
      reads this, C, T
    {
      Valid() && size == n &&
      (forall a, b :: 0 <= a < MaxNodes && 0 <= b < MaxNodes ==> C[a, b] == CostAfter(n, done, a, b)) &&
      (AnyInserted(n, done) ==> Solved()) &&
      (!AnyInserted(n, done) ==> Cleared())
    }

    /** An empty matrix of size nodes is what buildGraph has built before reading any record. */
    lemma EmptyIsBuilt()
      requires IsSquare(C) && Mirrors() && IsEmpty() && 0 < size < MaxNodes
      requires |Rank| == MaxNodes && forall i :: 0 <= i < MaxNodes ==> |Rank[i]| == MaxNodes
      ensures Built(size, [])
    {
      assert Cleared();
    }

    /** One iteration of buildGraph's loop: insertEdge on the next record. */
    method InsertRecord(ghost n: int, ghost done: seq<EdgeRecord>, r: EdgeRecord)
      requires Built(n, done)
      modifies C, T, this`Rows, this`Rank
      ensures Built(n, done + [r])
    {
      var ok := InsertEdge(r.source, r.destination, r.distance);
      forall a, b | 0 <= a < MaxNodes && 0 <= b < MaxNodes
        ensures C[a, b] == CostAfter(n, done + [r], a, b)
      {
        CostAfterAppend(n, done, r, a, b);
      }
      AnyInsertedAppend(n, done, r);
    }

    /**
     * display(source, destination) as a value: NoPath when dist is
     * INT_MAX, otherwise the distance, the nodes displayPath prints before
     * destination, and the nodes whose descriptions displayPathDescrip
     * prints (each within size steps of the predecessor chain).
     */
    ghost function Display(source: int, destination: int): (r: PathReport)
      reads this, T
      requires Mirrors() && 0 <= size < MaxNodes
      requires 0 <= source < MaxNodes && 0 <= destination < MaxNodes
      ensures r.Path? <==> T[source, destination].dist < Infinity
      ensures r.Path? ==> r.dist == T[source, destination].dist
    {
      var row := Rows[source];
      if row[destination].dist < Infinity then
        Path(row[destination].dist,
             DisplayPath(row, destination, size),
             DisplayPathDescrip(row, source, destination, size))
      else NoPath
    }

    /** display on a pair outside 1..size x 1..size always reports no path. */
    lemma DisplayOutside(source: int, destination: int)
      requires Shape()
      requires 0 <= source < MaxNodes && 0 <= destination < MaxNodes
      requires !(1 <= source <= size && 1 <= destination <= size)
      ensures Display(source, destination) == NoPath
    {
    }

    /**
     * In a solved table display reports a path exactly when one exists;
     * the reported distance is the least weight of any walk, the printed
     * nodes followed by destination form a walk of that weight, and the
     * described nodes are that same walk.
     */
    lemma DisplayIsShortest(source: int, destination: int)
      requires Shape() && Solved()
      requires 1 <= source <= size && 1 <= destination <= size
      ensures Display(source, destination).Path? <==>
        exists w :: IsWalk(C, size, w, source, destination) && Weight(C, w) < Infinity
      ensures Display(source, destination).Path? ==>
        var r := Display(source, destination);
        r.nodes.Some? && r.described == Some(r.nodes.value + [destination]) &&
        IsWalk(C, size, r.nodes.value + [destination], source, destination) &&
        Weight(C, r.nodes.value + [destination]) == r.dist &&
        forall w :: IsWalk(C, size, w, source, destination) && Weight(C, w) < Infinity ==> r.dist <= Weight(C, w)
    {
      var row := Rows[source];
      assert RowSolved(C, row, Rank[source], size, source);
      ShortestDistance(C, row, Rank[source], size, source, destination);
      if row[destination].dist < Infinity {
        DescripMatchesPath(C, row, Rank[source], size, source, destination, size);
      }
    }
  }
}
