/**
 * Walks over a connection map: adjacency, edge weight, walks from one
 * node to another, their total weight and reachability. These are the
 * terms in which shortest paths and routes are specified.
 */
module Paths {
  import opened PairIds
  import opened GraphTypes

  /** Nodes `a` and `b` are directly connected. */
  predicate Adjacent(conns: Connections, a: int, b: int)
  {
    PairId(a, b) in conns
  }

  /** Weight of the connection between `a` and `b` (0 when there is none). */
  function Weight(conns: Connections, a: int, b: int): real
  {
    if PairId(a, b) in conns then conns[PairId(a, b)].weight else 0.0
  }

  /** Every two consecutive entries of `p` are directly connected. */
  ghost predicate IsWalk(conns: Connections, p: seq<int>)
  {
    forall k :: 0 <= k < |p| - 1 ==> Adjacent(conns, p[k], p[k + 1])
  }

  /** `p` is a walk that starts at `s` and ends at `v`. */
  ghost predicate IsPathFromTo(conns: Connections, p: seq<int>, s: int, v: int)
  {
    |p| > 0 && p[0] == s && p[|p| - 1] == v && IsWalk(conns, p)
  }

  /** `v` can be reached from `s` along connections. */
  ghost predicate Reachable(conns: Connections, s: int, v: int)
  {
    exists p :: IsPathFromTo(conns, p, s, v)
  }

  /** Total weight of the connections along `p`. */
  function Cost(conns: Connections, p: seq<int>): real
  {
    if |p| <= 1 then 0.0 else Weight(conns, p[0], p[1]) + Cost(conns, p[1..])
  }

  /** No stored connection has a negative weight. */
  ghost predicate NonNegative(conns: Connections)
  {
    forall k :: k in conns ==> conns[k].weight >= 0.0
  }

  lemma WeightSymmetric(conns: Connections, a: int, b: int)
    ensures Weight(conns, a, b) == Weight(conns, b, a)
    ensures Adjacent(conns, a, b) <==> Adjacent(conns, b, a)
  {
    PairIdSymmetric(a, b);
  }

  /** A connection between `a` and `b` in a well-keyed map joins two
      distinct node indices. */
  lemma AdjacentEndpoints(conns: Connections, n: int, a: int, b: int)
    requires Keyed(conns, n)
    requires Adjacent(conns, a, b)
    ensures 0 <= a < n && 0 <= b < n && a != b
    ensures conns[PairId(a, b)].Joins(a, b)
  {
    var c := conns[PairId(a, b)];
    PairIdInjective(a, b, c.nodeIndex0, c.nodeIndex1);
  }

  /** The far end of a stored connection `k` that touches `u`: `k` is the
      key of `u` and that end, and of no other pair containing `u`. */
  lemma OtherEnd(conns: Connections, n: int, k: Id, u: int)
    requires Keyed(conns, n) && k in conns && conns[k].ContainsNodeIndex(u)
    ensures var c := conns[k];
            var other := if c.nodeIndex0 == u then c.nodeIndex1 else c.nodeIndex0;
            && 0 <= other < n && other != u
            && PairId(u, other) == k
            && Adjacent(conns, u, other)
            && Weight(conns, u, other) == c.weight
            && forall b :: PairId(u, b) == k ==> b == other
  {
    var c := conns[k];
    var other := if c.nodeIndex0 == u then c.nodeIndex1 else c.nodeIndex0;
    PairIdSymmetric(u, other);
    forall b | PairId(u, b) == k ensures b == other {
      PairIdInjective(u, b, u, other);
    }
  }

  /** Extending a walk by one connection adds that connection's weight. */
  lemma {:induction false} CostAppend(conns: Connections, p: seq<int>, v: int)
    requires |p| > 0
    ensures Cost(conns, p + [v]) == Cost(conns, p) + Weight(conns, p[|p| - 1], v)
  {
    if |p| > 1 {
      assert (p + [v])[1..] == p[1..] + [v];
      CostAppend(conns, p[1..], v);
    }
  }

  /** A walk of non-negative connections has a non-negative weight. */
  lemma {:induction false} CostNonNegative(conns: Connections, p: seq<int>)
    requires NonNegative(conns)
    ensures Cost(conns, p) >= 0.0
  {
    if |p| > 1 {
      CostNonNegative(conns, p[1..]);
    }
  }

  /** The walk extended by one connection goes from `s` to the new end. */
  lemma PathAppend(conns: Connections, p: seq<int>, s: int, u: int, v: int)
    requires IsPathFromTo(conns, p, s, u)
    requires Adjacent(conns, u, v)
    ensures IsPathFromTo(conns, p + [v], s, v)
    ensures Cost(conns, p + [v]) == Cost(conns, p) + Weight(conns, u, v)
  {
    CostAppend(conns, p, v);
  }

  /** Dropping the last stop of a walk leaves a walk to the stop before,
      lighter by the dropped connection. */
  lemma PathDropLast(conns: Connections, p: seq<int>, s: int, v: int)
    requires IsPathFromTo(conns, p, s, v)
    requires |p| > 1
    ensures IsPathFromTo(conns, p[..|p| - 1], s, p[|p| - 2])
    ensures Adjacent(conns, p[|p| - 2], v)
    ensures Cost(conns, p) == Cost(conns, p[..|p| - 1]) + Weight(conns, p[|p| - 2], v)
  {
    var q := p[..|p| - 1];
    assert q + [v] == p;
    CostAppend(conns, q, v);
  }

  /** A walk preceded by a neighbour of its first stop starts at that
      neighbour and is heavier by the added connection. */
  lemma PathPrepend(conns: Connections, p: seq<int>, u: int, v: int, t: int)
    requires IsPathFromTo(conns, p, v, t)
    requires Adjacent(conns, u, v)
    ensures IsPathFromTo(conns, [u] + p, u, t)
    ensures Cost(conns, [u] + p) == Weight(conns, u, v) + Cost(conns, p)
  {
    assert ([u] + p)[1..] == p;
  }

  /** The stops of `s` in the opposite order. */
  function Reversed(s: seq<int>): (r: seq<int>)
    ensures |r| == |s|
    ensures forall k :: 0 <= k < |s| ==> r[k] == s[|s| - 1 - k]
  {
    if s == [] then [] else [s[|s| - 1]] + Reversed(s[..|s| - 1])
  }

  /** Reversing a sequence extended at the back puts the new stop in front. */
  lemma ReversedAppend(s: seq<int>, x: int)
    ensures Reversed(s + [x]) == [x] + Reversed(s)
  {
    assert (s + [x])[..|s|] == s;
  }
}
