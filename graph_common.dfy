/**
 * What both graph engines share: the 32-bit integer range, the record
 * prefix a read loop consumes, node index sets and the optional value.
 */
module GraphCommon {
  /** INT_MAX of a 32-bit C++ `int`. */
  const IntMax: int := 0x7FFF_FFFF
  /** INT_MIN of a 32-bit C++ `int`. */
  const IntMin: int := -0x8000_0000

  /** The values a C++ `int` parameter can carry. */
  type Int32 = x: int | IntMin <= x <= IntMax

  datatype Option<T> = None | Some(value: T)

  /**
   * The records a read loop `while ((infile >> source >> ...) && source != 0)`
   * consumes: the longest prefix none of whose sources is 0.
   */
  function BeforeZero<R>(recs: seq<R>, source: R -> int): (r: seq<R>)
    ensures |r| <= |recs| && r == recs[..|r|]
    ensures forall k :: 0 <= k < |r| ==> source(r[k]) != 0
    ensures |r| < |recs| ==> source(recs[|r|]) == 0
  {
    if recs == [] || source(recs[0]) == 0 then []
    else [recs[0]] + BeforeZero(recs[1..], source)
  }

  /** A read loop that stops at i has consumed exactly BeforeZero. */
  lemma BeforeZeroIsPrefix<R>(recs: seq<R>, source: R -> int, i: int)
    requires 0 <= i <= |recs|
    requires forall k :: 0 <= k < i ==> source(recs[k]) != 0
    requires i == |recs| || source(recs[i]) == 0
    ensures BeforeZero(recs, source) == recs[..i]
  {
  }

  /** The node indices 1..n. */
  ghost function Nodes(n: nat): (r: set<int>)
    ensures forall i :: i in r <==> 1 <= i <= n
    ensures |r| == n
  {
    if n == 0 then {} else Nodes(n - 1) + {n}
  }
}
