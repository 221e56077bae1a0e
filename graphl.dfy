/**
 * GraphL: the unweighted, directed graph engine. Each node 1..size owns a
 * singly-linked edge list (front insertion) and a visited flag; the lists
 * are walked by a depth-first search that emits a preorder.
 *
 * An edge list is modelled as a `seq<int>` whose first element is the head
 * of the list, so following `nextEdge` is taking the tail.
 */
module GraphList {
  import opened GraphCommon

  /** MAXNODES_L: the capacity of adjNodeList; index 0 is never a node. */
  const MaxNodesL: int := 101

  /** One edge line of the input: source, destination. */
  datatype Arc = Arc(source: Int32, destination: Int32)

  /** The argument check of insertEdge. */
  predicate Accepted(n: int, source: int, destination: int)
  {
    source > 0 && source <= n && destination > 0 && destination <= n && source != destination
  }

  /** The field buildGraph's read loop tests against 0. */
  function ArcSource(a: Arc): int
  {
    a.source
  }

  /**
   * The edge list of node i once the arcs are fed to insertEdge, in this
   * order, on an empty n-node graph: each accepted arc is put at the front.
   */
  function ListAfter(n: int, arcs: seq<Arc>, i: int): (l: seq<int>)
    ensures l != [] ==> 1 <= i <= n
    ensures forall k :: 0 <= k < |l| ==> 1 <= l[k] <= n && l[k] != i
  {
    if arcs == [] then []
    else
      var last := arcs[|arcs| - 1];
      var rest := ListAfter(n, arcs[..|arcs| - 1], i);
      if Accepted(n, last.source, last.destination) && last.source == i
      then [last.destination as int] + rest
      else rest
  }

  /** The destinations of the accepted arcs out of node i, in input order. */
  function Inserted(n: int, arcs: seq<Arc>, i: int): seq<int>
  {
    if arcs == [] then []
    else
      (if Accepted(n, arcs[0].source, arcs[0].destination) && arcs[0].source == i
       then [arcs[0].destination as int] else []) + Inserted(n, arcs[1..], i)
  }

  function Reverse(s: seq<int>): (r: seq<int>)
    ensures |r| == |s|
  {
    if s == [] then [] else Reverse(s[1..]) + [s[0]]
  }

  lemma {:induction false} ReverseAppend(s: seq<int>, t: seq<int>)
    ensures Reverse(s + t) == Reverse(t) + Reverse(s)
    decreases |s|
  {
    if s == [] {
      assert s + t == t;
    } else {
      assert (s + t)[1..] == s[1..] + t;
      ReverseAppend(s[1..], t);
    }
  }

  lemma {:induction false} InsertedAppend(n: int, arcs: seq<Arc>, a: Arc, i: int)
    ensures Inserted(n, arcs + [a], i) ==
      Inserted(n, arcs, i) + (if Accepted(n, a.source, a.destination) && a.source == i
                              then [a.destination as int] else [])
    decreases |arcs|
  {
    if arcs == [] {
      assert [a][1..] == [];
    } else {
      assert (arcs + [a])[1..] == arcs[1..] + [a];
      InsertedAppend(n, arcs[1..], a, i);
    }
  }

  /** An edge list holds its destinations in the reverse of their insertion order. */
  lemma {:induction false} ListIsReversedInsertions(n: int, arcs: seq<Arc>, i: int)
    ensures ListAfter(n, arcs, i) == Reverse(Inserted(n, arcs, i))
    decreases |arcs|
  {
    if arcs != [] {
      var init, last := arcs[..|arcs| - 1], arcs[|arcs| - 1];
      assert arcs == init + [last];
      ListIsReversedInsertions(n, init, i);
      InsertedAppend(n, init, last, i);
      var tail := if Accepted(n, last.source, last.destination) && last.source == i
                  then [last.destination as int] else [];
      ReverseAppend(Inserted(n, init, i), tail);
      assert Reverse(tail) == tail;
    }
  }

  /** No element occurs twice. */
  predicate Distinct(s: seq<int>)
  {
    forall a, b :: 0 <= a < b < |s| ==> s[a] != s[b]
  }

  lemma DistinctConcat(s: seq<int>, t: seq<int>)
    requires Distinct(s) && Distinct(t)
    requires forall x :: x in s ==> x !in t
    ensures Distinct(s + t)
  {
    forall a, b | 0 <= a < b < |s + t|
      ensures (s + t)[a] != (s + t)[b]
    {
      if b >= |s| && a < |s| {
        assert (s + t)[a] in s && (s + t)[b] in t;
      }
    }
  }

  /**
   * The adjacency lists of an n-node graph: one per array slot, every
   * target a node of 1..n other than the list's owner.
   */
  ghost predicate WellFormed(g: seq<seq<int>>, n: int)
  {
    |g| == MaxNodesL && 0 <= n < MaxNodesL &&
    forall i, k :: 0 <= i < |g| && 0 <= k < |g[i]| ==> 1 <= g[i][k] <= n && g[i][k] != i
  }

  /**
   * dfsHelper(v) on the lists g with the visited set vis: v first, then each
   * unvisited target of v's list, front first, explored before the next.
   * Result: the emitted vertices and the new visited set.
   */
  ghost function Explore(g: seq<seq<int>>, n: int, vis: set<int>, v: int): (r: (seq<int>, set<int>))
    requires WellFormed(g, n) && 1 <= v <= n && v !in vis
    ensures vis + {v} <= r.1
    ensures |r.0| > 0 && r.0[0] == v
    decreases Nodes(n) - vis, 0, 0
  {
    var rest := ExploreList(g, n, vis + {v}, g[v]);
    ([v] + rest.0, rest.1)
  }

  /** The while loop of dfsHelper over the remaining list entries. */
  ghost function ExploreList(g: seq<seq<int>>, n: int, vis: set<int>, list: seq<int>): (r: (seq<int>, set<int>))
    requires WellFormed(g, n) && forall k :: 0 <= k < |list| ==> 1 <= list[k] <= n
    ensures vis <= r.1
    decreases Nodes(n) - vis, 1, |list|
  {
    if list == [] then ([], vis)
    else if list[0] in vis then ExploreList(g, n, vis, list[1..])
    else
      var a := Explore(g, n, vis, list[0]);
      var b := ExploreList(g, n, a.1, list[1..]);
      (a.0 + b.0, b.1)
  }

  /** The for loop of depthFirstSearch from root r on: unvisited roots in ascending order. */
  ghost function Roots(g: seq<seq<int>>, n: int, vis: set<int>, r: int): (res: (seq<int>, set<int>))
    requires WellFormed(g, n) && 1 <= r <= n + 1
    ensures vis <= res.1
    decreases n + 1 - r
  {
    if r > n then ([], vis)
    else if r in vis then Roots(g, n, vis, r + 1)
    else
      var a := Explore(g, n, vis, r);
      var b := Roots(g, n, a.1, r + 1);
      (a.0 + b.0, b.1)
  }

  /**
   * A search step that started from the visited set vis emitted exactly the
   * nodes it newly visited, all of them in 1..n.
   */
  ghost predicate Accounts(n: int, vis: set<int>, r: (seq<int>, set<int>))
  {
    vis <= r.1 &&
    (forall x :: x in r.0 <==> x in r.1 && x !in vis) &&
    (forall x :: x in r.0 ==> 1 <= x <= n)
  }

  /** dfsHelper emits exactly the vertices it marks. */
  lemma {:induction false} ExploreAccounts(g: seq<seq<int>>, n: int, vis: set<int>, v: int)
    requires WellFormed(g, n) && 1 <= v <= n && v !in vis
    ensures Accounts(n, vis, Explore(g, n, vis, v))
    decreases Nodes(n) - vis, 0, 0
  {
    ExploreListAccounts(g, n, vis + {v}, g[v]);
  }

  /** The list loop emits exactly the vertices it marks, and marks every entry. */
  lemma {:induction false} ExploreListAccounts(g: seq<seq<int>>, n: int, vis: set<int>, list: seq<int>)
    requires WellFormed(g, n) && forall k :: 0 <= k < |list| ==> 1 <= list[k] <= n
    ensures Accounts(n, vis, ExploreList(g, n, vis, list))
    ensures forall k :: 0 <= k < |list| ==> list[k] in ExploreList(g, n, vis, list).1
    decreases Nodes(n) - vis, 1, |list|
  {
    if list == [] {
    } else if list[0] in vis {
      ExploreListAccounts(g, n, vis, list[1..]);
    } else {
      var a := Explore(g, n, vis, list[0]);
      ExploreAccounts(g, n, vis, list[0]);
      ExploreListAccounts(g, n, a.1, list[1..]);
    }
  }

  /** The root loop emits exactly the vertices it marks, and marks every root it passes. */
  lemma {:induction false} RootsAccounts(g: seq<seq<int>>, n: int, vis: set<int>, r: int)
    requires WellFormed(g, n) && 1 <= r <= n + 1
    ensures Accounts(n, vis, Roots(g, n, vis, r))
    ensures forall i :: r <= i <= n ==> i in Roots(g, n, vis, r).1
    decreases n + 1 - r
  {
    if r > n {
    } else if r in vis {
      RootsAccounts(g, n, vis, r + 1);
    } else {
      var a := Explore(g, n, vis, r);
      ExploreAccounts(g, n, vis, r);
      RootsAccounts(g, n, a.1, r + 1);
    }
  }

  /** Marking v, and maybe more, leaves fewer unvisited nodes. */
  lemma FewerUnvisited(n: nat, before: set<int>, after: set<int>, v: int)
    requires 1 <= v <= n && v !in before && before + {v} <= after
    ensures Nodes(n) - after < Nodes(n) - before
  {
    assert v in Nodes(n) - before;
  }

  lemma AppendAssoc(s: seq<int>, t: seq<int>, u: seq<int>)
    ensures (s + t) + u == s + (t + u)
  {
  }

  lemma TailOfAppend(s: seq<int>, t: seq<int>)
    requires |s| > 0
    ensures (s + t)[1..] == s[1..] + t
  {
  }

  /** One turn of the list loop of dfsHelper. */
  lemma ExploreListStep(g: seq<seq<int>>, n: int, vis: set<int>, list: seq<int>)
    requires WellFormed(g, n) && forall k :: 0 <= k < |list| ==> 1 <= list[k] <= n
    requires list != []
    ensures list[0] in vis ==> ExploreList(g, n, vis, list) == ExploreList(g, n, vis, list[1..])
    ensures list[0] !in vis ==>
      var a := Explore(g, n, vis, list[0]);
      ExploreList(g, n, vis, list).0 == a.0 + ExploreList(g, n, a.1, list[1..]).0 &&
      ExploreList(g, n, vis, list).1 == ExploreList(g, n, a.1, list[1..]).1
  {
  }

  /** One turn of the root loop of depthFirstSearch. */
  lemma RootsStep(g: seq<seq<int>>, n: int, vis: set<int>, r: int)
    requires WellFormed(g, n) && 1 <= r <= n
    ensures r in vis ==> Roots(g, n, vis, r) == Roots(g, n, vis, r + 1)
    ensures r !in vis ==>
      var a := Explore(g, n, vis, r);
      Roots(g, n, vis, r).0 == a.0 + Roots(g, n, a.1, r + 1).0 &&
      Roots(g, n, vis, r).1 == Roots(g, n, a.1, r + 1).1
  {
  }

  /** The order depthFirstSearch emits: every node of 1..n exactly once. */
  ghost function DepthFirstOrder(g: seq<seq<int>>, n: int): (order: seq<int>)
    requires WellFormed(g, n)
    ensures Distinct(order)
    ensures forall x :: x in order <==> 1 <= x <= n
    ensures |order| == n
  {
    var res := Roots(g, n, {}, 1);
    RootsAccounts(g, n, {}, 1);
    RootsDistinct(g, n, {}, 1);
    DistinctCount(res.0, n);
    res.0
  }

  /** dfsHelper emits no vertex twice. */
  lemma {:induction false} ExploreDistinct(g: seq<seq<int>>, n: int, vis: set<int>, v: int)
    requires WellFormed(g, n) && 1 <= v <= n && v !in vis
    ensures Distinct(Explore(g, n, vis, v).0)
    decreases Nodes(n) - vis, 0, 0
  {
    var rest := ExploreList(g, n, vis + {v}, g[v]);
    ExploreListDistinct(g, n, vis + {v}, g[v]);
    ExploreListAccounts(g, n, vis + {v}, g[v]);
    DistinctConcat([v], rest.0);
  }

  lemma {:induction false} ExploreListDistinct(g: seq<seq<int>>, n: int, vis: set<int>, list: seq<int>)
    requires WellFormed(g, n) && forall k :: 0 <= k < |list| ==> 1 <= list[k] <= n
    ensures Distinct(ExploreList(g, n, vis, list).0)
    decreases Nodes(n) - vis, 1, |list|
  {
    if list == [] {
    } else if list[0] in vis {
      ExploreListDistinct(g, n, vis, list[1..]);
    } else {
      var a := Explore(g, n, vis, list[0]);
      ExploreDistinct(g, n, vis, list[0]);
      ExploreListDistinct(g, n, a.1, list[1..]);
      ExploreAccounts(g, n, vis, list[0]);
      ExploreListAccounts(g, n, a.1, list[1..]);
      DistinctConcat(a.0, ExploreList(g, n, a.1, list[1..]).0);
    }
  }

  /** The root loop of depthFirstSearch emits no vertex twice. */
  lemma {:induction false} RootsDistinct(g: seq<seq<int>>, n: int, vis: set<int>, r: int)
    requires WellFormed(g, n) && 1 <= r <= n + 1
    ensures Distinct(Roots(g, n, vis, r).0)
    decreases n + 1 - r
  {
    if r > n {
    } else if r in vis {
      RootsDistinct(g, n, vis, r + 1);
    } else {
      var a := Explore(g, n, vis, r);
      ExploreDistinct(g, n, vis, r);
      RootsDistinct(g, n, a.1, r + 1);
      ExploreAccounts(g, n, vis, r);
      RootsAccounts(g, n, a.1, r + 1);
      DistinctConcat(a.0, Roots(g, n, a.1, r + 1).0);
    }
  }

  /** n distinct values drawn from 1..n, covering all of 1..n, are n values. */
  lemma DistinctCount(s: seq<int>, n: nat)
    requires Distinct(s)
    requires forall x :: x in s <==> 1 <= x <= n
    ensures |s| == n
  {
    var S := set k | 0 <= k < |s| :: s[k];
    forall x
      ensures x in S <==> x in Nodes(n)
    {
      if x in s {
        var k :| 0 <= k < |s| && s[k] == x;
      }
    }
    assert S == Nodes(n);
    SeqSetSize(s);
  }

  lemma {:induction false} SeqSetSize(s: seq<int>)
    requires Distinct(s)
    ensures |set k | 0 <= k < |s| :: s[k]| == |s|
    decreases |s|
  {
    if s != [] {
      var init := s[..|s| - 1];
      SeqSetSize(init);
      var A := set k | 0 <= k < |init| :: init[k];
      var B := set k | 0 <= k < |s| :: s[k];
      assert B == A + {s[|s| - 1]};
      assert s[|s| - 1] !in A;
    }
  }

  /** Position p of s holds a target of an earlier position's edge list. */
  ghost predicate ReachedFromEarlier(g: seq<seq<int>>, s: seq<int>, p: int)
    requires 0 <= p < |s|
  {
    exists q :: 0 <= q < p && 0 <= s[q] < |g| && s[p] in g[s[q]]
  }

  /** Every vertex of s after the first hangs off an earlier one. */
  ghost predicate AllReached(g: seq<seq<int>>, s: seq<int>)
  {
    forall p :: 0 < p < |s| ==> ReachedFromEarlier(g, s, p)
  }

  /** Every vertex of s is an entry of list or hangs off an earlier one. */
  ghost predicate ReachedOrListed(g: seq<seq<int>>, s: seq<int>, list: seq<int>)
  {
    forall p :: 0 <= p < |s| ==> s[p] in list || ReachedFromEarlier(g, s, p)
  }

  /**
   * Every vertex of s hangs off an earlier one, or is a root: no index from
   * r up to it is neither in vis nor emitted before it.
   */
  ghost predicate ReachedOrRoot(g: seq<seq<int>>, s: seq<int>, vis: set<int>, r: int)
  {
    forall p :: 0 <= p < |s| ==>
      ReachedFromEarlier(g, s, p) || forall y :: r <= y < s[p] ==> y in vis || y in s[..p]
  }

  lemma KeepParentLeft(g: seq<seq<int>>, s: seq<int>, t: seq<int>, p: int)
    requires 0 <= p < |s| && ReachedFromEarlier(g, s, p)
    ensures ReachedFromEarlier(g, s + t, p)
  {
    var q :| 0 <= q < p && 0 <= s[q] < |g| && s[p] in g[s[q]];
    assert (s + t)[q] == s[q];
  }

  lemma KeepParentRight(g: seq<seq<int>>, s: seq<int>, t: seq<int>, p: int)
    requires 0 <= p < |t| && ReachedFromEarlier(g, t, p)
    ensures ReachedFromEarlier(g, s + t, |s| + p)
  {
    var q :| 0 <= q < p && 0 <= t[q] < |g| && t[p] in g[t[q]];
    assert (s + t)[|s| + q] == t[q];
  }

  /** Every vertex dfsHelper(v) emits after v hangs off an earlier emitted vertex. */
  lemma {:induction false} ExploreParents(g: seq<seq<int>>, n: int, vis: set<int>, v: int)
    requires WellFormed(g, n) && 1 <= v <= n && v !in vis
    ensures AllReached(g, Explore(g, n, vis, v).0)
    decreases Nodes(n) - vis, 0, 0
  {
    ExploreListParents(g, n, vis + {v}, g[v]);
    HeadThenListed(g, v, ExploreList(g, n, vis + {v}, g[v]).0);
  }

  /** Every vertex the list loop emits is a list entry or hangs off an earlier one. */
  lemma {:induction false} ExploreListParents(g: seq<seq<int>>, n: int, vis: set<int>, list: seq<int>)
    requires WellFormed(g, n) && forall k :: 0 <= k < |list| ==> 1 <= list[k] <= n
    ensures ReachedOrListed(g, ExploreList(g, n, vis, list).0, list)
    decreases Nodes(n) - vis, 1, |list|
  {
    if list == [] {
    } else if list[0] in vis {
      ExploreListParents(g, n, vis, list[1..]);
      ListedInTail(g, ExploreList(g, n, vis, list[1..]).0, list);
    } else {
      var a := Explore(g, n, vis, list[0]);
      ExploreParents(g, n, vis, list[0]);
      ExploreListParents(g, n, a.1, list[1..]);
      TreeThenListed(g, a.0, ExploreList(g, n, a.1, list[1..]).0, list);
    }
  }

  /** A vertex followed by what its list loop emitted. */
  lemma HeadThenListed(g: seq<seq<int>>, v: int, t: seq<int>)
    requires 0 <= v < |g| && ReachedOrListed(g, t, g[v])
    ensures AllReached(g, [v] + t)
  {
    var out := [v] + t;
    forall p | 0 < p < |out|
      ensures ReachedFromEarlier(g, out, p)
    {
      if t[p - 1] in g[v] {
        assert out[0] == v;
      } else {
        KeepParentRight(g, [v], t, p - 1);
      }
    }
  }

  /** Entries of the rest of a list are entries of the list. */
  lemma ListedInTail(g: seq<seq<int>>, t: seq<int>, list: seq<int>)
    requires list != [] && ReachedOrListed(g, t, list[1..])
    ensures ReachedOrListed(g, t, list)
  {
    forall p | 0 <= p < |t|
      ensures t[p] in list || ReachedFromEarlier(g, t, p)
    {
      if t[p] in list[1..] {
        assert t[p] in list;
      }
    }
  }

  /** The tree grown from the list's first entry, then the loop over the rest. */
  lemma TreeThenListed(g: seq<seq<int>>, s: seq<int>, t: seq<int>, list: seq<int>)
    requires list != [] && |s| > 0 && s[0] == list[0] && AllReached(g, s)
    requires ReachedOrListed(g, t, list[1..])
    ensures ReachedOrListed(g, s + t, list)
  {
    var out := s + t;
    forall p | 0 <= p < |out|
      ensures out[p] in list || ReachedFromEarlier(g, out, p)
    {
      if p < |s| {
        if p > 0 {
          KeepParentLeft(g, s, t, p);
        }
      } else if t[p - |s|] in list[1..] {
        assert out[p] in list;
      } else {
        KeepParentRight(g, s, t, p - |s|);
      }
    }
  }

  /**
   * In the order the root loop emits from r on, every vertex hangs off an
   * earlier one, or is a root that no index in r..it-1 still waited for.
   */
  lemma {:induction false} RootsParents(g: seq<seq<int>>, n: int, vis: set<int>, r: int)
    requires WellFormed(g, n) && 1 <= r <= n + 1
    ensures ReachedOrRoot(g, Roots(g, n, vis, r).0, vis, r)
    decreases n + 1 - r
  {
    if r > n {
    } else if r in vis {
      RootsParents(g, n, vis, r + 1);
      RootSkipped(g, Roots(g, n, vis, r + 1).0, vis, r);
    } else {
      var a := Explore(g, n, vis, r);
      ExploreParents(g, n, vis, r);
      ExploreAccounts(g, n, vis, r);
      RootsParents(g, n, a.1, r + 1);
      RootThenRest(g, a.0, Roots(g, n, a.1, r + 1).0, vis, a.1, r);
    }
  }

  /** A root already visited does not hold up the roots after it. */
  lemma RootSkipped(g: seq<seq<int>>, s: seq<int>, vis: set<int>, r: int)
    requires r in vis && ReachedOrRoot(g, s, vis, r + 1)
    ensures ReachedOrRoot(g, s, vis, r)
  {
  }

  /**
   * A tree rooted at r followed by the rest of the root loop from r + 1:
   * the rest's roots waited for nothing that the tree did not visit.
   */
  lemma RootThenRest(g: seq<seq<int>>, s: seq<int>, t: seq<int>, vis: set<int>, mid: set<int>, r: int)
    requires |s| > 0 && s[0] == r && AllReached(g, s)
    requires ReachedOrRoot(g, t, mid, r + 1)
    requires forall x :: x in mid ==> x in vis || x in s
    ensures ReachedOrRoot(g, s + t, vis, r)
  {
    var out := s + t;
    forall p | 0 <= p < |out|
      ensures ReachedFromEarlier(g, out, p) ||
        forall y :: r <= y < out[p] ==> y in vis || y in out[..p]
    {
      if p < |s| {
        if p > 0 {
          KeepParentLeft(g, s, t, p);
        }
      } else {
        var p' := p - |s|;
        if ReachedFromEarlier(g, t, p') {
          KeepParentRight(g, s, t, p');
        } else {
          assert out[..p] == s + t[..p'];
          forall y | r <= y < out[p]
            ensures y in vis || y in out[..p]
          {
            if y == r {
              assert out[..p][0] == r;
            } else {
              assert y in mid || y in t[..p'];
            }
          }
        }
      }
    }
  }

  /**
   * The preorder of depthFirstSearch: each vertex is either reached by an
   * edge from a vertex emitted before it, or is a root emitted after every
   * smaller index.
   */
  lemma DepthFirstPreorder(g: seq<seq<int>>, n: int)
    requires WellFormed(g, n)
    ensures var order := DepthFirstOrder(g, n);
      forall p :: 0 <= p < |order| ==>
        ReachedFromEarlier(g, order, p) || forall y :: 1 <= y < order[p] ==> y in order[..p]
  {
    RootsParents(g, n, {}, 1);
    var order := DepthFirstOrder(g, n);
    assert ReachedOrRoot(g, order, {}, 1);
    forall p | 0 <= p < |order|
      ensures ReachedFromEarlier(g, order, p) || forall y :: 1 <= y < order[p] ==> y in order[..p]
    {
      if !ReachedFromEarlier(g, order, p) {
        forall y | 1 <= y < order[p]
          ensures y in order[..p]
        {
          assert y in {} || y in order[..p];
        }
      }
    }
  }

  /** Every target of an emitted vertex is visited once dfsHelper returns. */
  lemma {:induction false} ExploreClosed(g: seq<seq<int>>, n: int, vis: set<int>, v: int)
    requires WellFormed(g, n) && 1 <= v <= n && v !in vis
    ensures var r := Explore(g, n, vis, v);
      forall x, k :: x in r.0 && 0 <= x < |g| && 0 <= k < |g[x]| ==> g[x][k] in r.1
    decreases Nodes(n) - vis, 0, 0
  {
    ExploreListClosed(g, n, vis + {v}, g[v]);
    ExploreListAccounts(g, n, vis + {v}, g[v]);
  }

  lemma {:induction false} ExploreListClosed(g: seq<seq<int>>, n: int, vis: set<int>, list: seq<int>)
    requires WellFormed(g, n) && forall k :: 0 <= k < |list| ==> 1 <= list[k] <= n
    ensures var r := ExploreList(g, n, vis, list);
      forall x, k :: x in r.0 && 0 <= x < |g| && 0 <= k < |g[x]| ==> g[x][k] in r.1
    decreases Nodes(n) - vis, 1, |list|
  {
    if list == [] {
    } else if list[0] in vis {
      ExploreListClosed(g, n, vis, list[1..]);
    } else {
      var a := Explore(g, n, vis, list[0]);
      ExploreClosed(g, n, vis, list[0]);
      ExploreListClosed(g, n, a.1, list[1..]);
    }
  }

  /** The lines displayGraph prints for node i: "edge i t" per list entry, in list order. */
  function NodeLines(i: int, list: seq<int>): (r: seq<(int, int)>)
    ensures |r| == |list|
    ensures forall k :: 0 <= k < |r| ==> r[k] == (i, list[k])
  {
    seq(|list|, k requires 0 <= k < |list| => (i, list[k]))
  }

  lemma NodeLinesAppend(i: int, list: seq<int>, t: int)
    ensures NodeLines(i, list + [t]) == NodeLines(i, list) + [(i, t)]
  {
  }

  /** The edge lines displayGraph prints for nodes 1..n, node by node. */
  function EdgeLines(g: seq<seq<int>>, n: int): (r: seq<(int, int)>)
    requires n < |g|
    ensures forall k :: 0 <= k < |r| ==> 1 <= r[k].0 <= n
  {
    if n <= 0 then [] else EdgeLines(g, n - 1) + NodeLines(n, g[n])
  }

  /** displayGraph prints exactly the edges of nodes 1..n. */
  lemma {:induction false} EdgeLinesAreEdges(g: seq<seq<int>>, n: int)
    requires n < |g|
    ensures forall i, t :: (i, t) in EdgeLines(g, n) <==> 1 <= i <= n && t in g[i]
    decreases n
  {
    if n > 0 {
      EdgeLinesAreEdges(g, n - 1);
      var lines := NodeLines(n, g[n]);
      forall t | t in g[n]
        ensures (n, t) in lines
      {
        var k :| 0 <= k < |g[n]| && g[n][k] == t;
        assert lines[k] == (n, t);
      }
      forall i, t | (i, t) in lines
        ensures i == n && t in g[n]
      {
        var k :| 0 <= k < |lines| && lines[k] == (i, t);
      }
      assert EdgeLines(g, n) == EdgeLines(g, n - 1) + lines;
    }
  }

  class GraphL {
    /** edgeHead of each adjNodeList slot, as the sequence of its targets. */
    var adj: array<seq<int>>
    /** visited of each adjNodeList slot. */
    var visited: array<bool>
    /** Number of nodes, 1..size in use. */
    var size: int

    /**
     * The edge lists: MAXNODES_L slots, every edge joins two distinct nodes
     * of 1..size, and slots outside 1..size hold no edges.
     */
    ghost predicate Lists()
      reads this, adj
    {
      adj.Length == MaxNodesL && WellFormed(adj[..], size) &&
      forall i :: 0 <= i < MaxNodesL && !(1 <= i <= size) ==> adj[i] == []
    }

    /** The visited flags: MAXNODES_L slots, none set outside 1..size. */
    ghost predicate Flags()
      reads this, visited
    {
      visited.Length == MaxNodesL && 0 <= size < MaxNodesL &&
      forall i :: 0 <= i < MaxNodesL && !(1 <= i <= size) ==> !visited[i]
    }

    ghost predicate Valid()
      reads this, adj, visited
    {
      Lists() && Flags()
    }

    /** The visited slots, as a set of indices. */
    ghost function Marked(): (m: set<int>)
      reads this, visited
      ensures forall i :: i in m <==> 0 <= i < visited.Length && visited[i]
    {
      set i | 0 <= i < visited.Length && visited[i]
    }

    constructor ()
      ensures Valid() && size == 0 && fresh(adj) && fresh(visited)
      ensures forall i :: 0 <= i < MaxNodesL ==> adj[i] == [] && !visited[i]
    {
      adj := new seq<int>[MaxNodesL];
      visited := new bool[MaxNodesL];
      size := 0;
      new;
      MakeEmpty();
    }

    /** makeEmpty: size 0, every slot without edges and unvisited. */
    method MakeEmpty()
      requires adj.Length == MaxNodesL && visited.Length == MaxNodesL
      modifies this`size, adj, visited
      ensures Valid() && size == 0
      ensures forall i :: 0 <= i < MaxNodesL ==> adj[i] == [] && !visited[i]
    {
      size := 0;
      for i := 0 to MaxNodesL
        invariant size == 0
        invariant forall j :: 0 <= j < i ==> adj[j] == [] && !visited[j]
      {
        visited[i] := false;
        adj[i] := [];
      }
    }

    /**
     * deleteAll: when the graph has nodes, unlinks every edge of nodes
     * 1..size one by one, clears their visited flags and sets size to 0.
     */
    method DeleteAll()
      requires Valid()
      modifies this`size, adj, visited
      ensures Valid() && size == 0
      ensures forall i :: 1 <= i <= old(size) ==> adj[i] == [] && !visited[i]
      ensures forall i :: 0 <= i < MaxNodesL && !(1 <= i <= old(size)) ==>
        adj[i] == old(adj[i]) && visited[i] == old(visited[i])
      ensures forall i :: 0 <= i < MaxNodesL ==> adj[i] == [] && !visited[i]
    {
      if size > 0 {
        for i := 1 to size + 1
          invariant forall j :: 1 <= j < i ==> adj[j] == [] && !visited[j]
          invariant forall j :: 0 <= j < MaxNodesL && !(1 <= j < i) ==>
            adj[j] == old(adj[j]) && visited[j] == old(visited[j])
        {
          while adj[i] != []
            invariant forall j :: 1 <= j < i ==> adj[j] == [] && !visited[j]
            invariant forall j :: 0 <= j < MaxNodesL && !(1 <= j <= i) ==>
              adj[j] == old(adj[j]) && visited[j] == old(visited[j])
            invariant visited[i] == old(visited[i])
            decreases |adj[i]|
          {
            adj[i] := adj[i][1..];
          }
          visited[i] := false;
        }
        size := 0;
      }
    }

    /**
     * insertEdge: accepts exactly the arcs between two distinct nodes of
     * 1..size and puts the destination at the front of the source's list,
     * duplicates included; a rejected arc changes nothing.
     */
    method InsertEdge(source: Int32, destination: Int32) returns (ok: bool)
      requires Valid()
      modifies adj
      ensures Valid()
      ensures ok == Accepted(size, source, destination)
      ensures ok ==> adj[source] == [destination as int] + old(adj[source])
      ensures forall i :: 0 <= i < MaxNodesL && (!ok || i != source as int) ==> adj[i] == old(adj[i])
    {
      ok := Accepted(size, source, destination);
      if ok {
        var next := adj[source];
        adj[source] := [destination as int] + next;
      }
    }

    /**
     * buildGraph: a node count outside 1..MAXNODES_L-1 changes nothing;
     * otherwise the graph is cleared, gets that many nodes, and the arcs
     * before the first with source 0 are inserted in order.
     */
    method BuildGraph(nodeCount: Int32, arcs: seq<Arc>)
      requires Valid()
      modifies this`size, adj, visited
      ensures Valid()
      ensures !(0 < nodeCount as int < MaxNodesL) ==> unchanged(this, adj, visited)
      ensures 0 < nodeCount as int < MaxNodesL ==>
        size == nodeCount as int &&
        (forall i :: 0 <= i < MaxNodesL ==> adj[i] == ListAfter(size, BeforeZero(arcs, ArcSource), i)) &&
        (forall i :: 0 <= i < MaxNodesL ==> !visited[i])
    {
      if nodeCount > 0 && (nodeCount as int) < MaxNodesL {
        if size != 0 {
          DeleteAll();
        }
        size := nodeCount as int;
        var i := 0;
        while i < |arcs| && arcs[i].source != 0
          invariant 0 <= i <= |arcs|
          invariant forall k :: 0 <= k < i ==> arcs[k].source != 0
          invariant Built(nodeCount as int, arcs[..i])
        {
          InsertArc(nodeCount as int, arcs[..i], arcs[i]);
          assert arcs[..i + 1] == arcs[..i] + [arcs[i]];
          i := i + 1;
        }
        BeforeZeroIsPrefix(arcs, ArcSource, i);
      }
    }

    /**
     * The state after buildGraph has fed the arcs done to insertEdge on an
     * empty n-node graph: each list is ListAfter(n, done, i), nothing visited.
     */
    ghost predicate Built(n: int, done: seq<Arc>)
      reads this, adj, visited
    {
      Valid() && size == n &&
      (forall j :: 0 <= j < MaxNodesL ==> adj[j] == ListAfter(n, done, j)) &&
      (forall j :: 0 <= j < MaxNodesL ==> !visited[j])
    }

    /** One iteration of buildGraph's loop: insertEdge on the next arc. */
    method InsertArc(ghost n: int, ghost done: seq<Arc>, a: Arc)
      requires Built(n, done)
      modifies adj
      ensures Built(n, done + [a])
    {
      var ok := InsertEdge(a.source, a.destination);
      assert (done + [a])[..|done|] == done;
    }

    /** resetVisted: clears the visited flag of slots 1..MAXNODES_L-1. */
    method ResetVisited()
      requires visited.Length == MaxNodesL
      modifies visited
      ensures forall i :: 1 <= i < MaxNodesL ==> !visited[i]
      ensures visited[0] == old(visited[0])
    {
      for i := 1 to MaxNodesL
        invariant forall j :: 1 <= j < i ==> !visited[j]
        invariant visited[0] == old(visited[0])
      {
        visited[i] := false;
      }
    }

    /**
     * dfsHelper(v): marks v, emits it, and walks v's list front first,
     * recursing into every target still unvisited when it is reached.
     */
    method DfsHelper(v: int) returns (out: seq<int>)
      requires Valid() && 1 <= v <= size && !visited[v]
      modifies visited
      ensures Valid()
      ensures out == Explore(adj[..], size, old(Marked()), v).0
      ensures Marked() == Explore(adj[..], size, old(Marked()), v).1
      decreases Nodes(size) - Marked()
    {
      ghost var g := adj[..];
      ghost var whole := ExploreList(g, size, old(Marked()) + {v}, g[v]);
      var current := adj[v];
      visited[v] := true;
      out := [v];
      assert Marked() == old(Marked()) + {v};
      assert out[1..] + whole.0 == whole.0;
      while current != []
        invariant Lists() && Flags() && adj[..] == g && old(Marked()) + {v} <= Marked()
        invariant forall k :: 0 <= k < |current| ==> 1 <= current[k] <= size
        invariant |out| > 0 && out[0] == v
        invariant whole.0 == out[1..] + ExploreList(g, size, Marked(), current).0
        invariant whole.1 == ExploreList(g, size, Marked(), current).1
        decreases |current|
      {
        var w := current[0];
        ExploreListStep(g, size, Marked(), current);
        if !visited[w] {
          ghost var before := Marked();
          FewerUnvisited(size, old(Marked()), before, v);
          var sub := DfsHelper(w);
          TailOfAppend(out, sub);
          AppendAssoc(out[1..], sub, ExploreList(g, size, Marked(), current[1..]).0);
          out := out + sub;
        }
        current := current[1..];
      }
      assert out == [v] + out[1..];
    }

    /**
     * depthFirstSearch: clears the visited flags, then starts dfsHelper at
     * every node of 1..size, in ascending order, that is still unvisited.
     */
    method DepthFirstSearch() returns (order: seq<int>)
      requires Valid()
      modifies visited
      ensures Valid()
      ensures order == DepthFirstOrder(adj[..], size)
      ensures forall i :: 1 <= i <= size ==> visited[i]
    {
      ghost var g := adj[..];
      ghost var whole := Roots(g, size, {}, 1);
      ResetVisited();
      assert Marked() == {};
      order := [];
      assert order + whole.0 == whole.0;
      for vertex := 1 to size + 1
        invariant Lists() && Flags() && adj[..] == g
        invariant whole.0 == order + Roots(g, size, Marked(), vertex).0
        invariant whole.1 == Roots(g, size, Marked(), vertex).1
      {
        ghost var before := Marked();
        RootsStep(g, size, before, vertex);
        if !visited[vertex] {
          ghost var tree := Explore(g, size, before, vertex);
          ghost var rest := Roots(g, size, tree.1, vertex + 1);
          var sub := DfsHelper(vertex);
          assert sub == tree.0 && Marked() == tree.1;
          AppendAssoc(order, sub, rest.0);
          order := order + sub;
        }
      }
      assert Roots(g, size, Marked(), size + 1) == ([], Marked());
      assert order == whole.0 == DepthFirstOrder(g, size);
      RootsAccounts(g, size, {}, 1);
      forall i | 1 <= i <= size
        ensures visited[i]
      {
        assert i in whole.1;
      }
    }

    /**
     * displayGraph: for each node 1..size in turn, one line per entry of
     * its edge list, head first.
     */
    method DisplayGraph() returns (lines: seq<(int, int)>)
      requires Lists()
      ensures lines == EdgeLines(adj[..], size)
      ensures forall i, t :: (i, t) in lines <==> 1 <= i <= size && t in adj[i]
    {
      ghost var g := adj[..];
      lines := [];
      for i := 1 to size + 1
        invariant lines == EdgeLines(g, i - 1)
      {
        var current := adj[i];
        ghost var seen: seq<int> := [];
        while current != []
          invariant seen + current == g[i]
          invariant lines == EdgeLines(g, i - 1) + NodeLines(i, seen)
          decreases |current|
        {
          NodeLinesAppend(i, seen, current[0]);
          AppendAssoc(seen, [current[0]], current[1..]);
          lines := lines + [(i, current[0])];
          seen := seen + [current[0]];
          current := current[1..];
        }
        assert seen == g[i];
      }
      EdgeLinesAreEdges(g, size);
    }
  }
}
