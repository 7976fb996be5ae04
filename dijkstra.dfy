/**
 * Dijkstra's single-source shortest paths over a connection map with
 * non-negative weights: what a finished shortest-path tree promises, the
 * state kept while nodes are settled one at a time, and the two facts the
 * algorithm rests on.
 */
module Dijkstra {
  import opened PairIds
  import opened GraphTypes
  import opened Paths

  // ---------------------------------------------------------------------
  // What a finished tree promises

  /** The source is at distance 0 and has no predecessor. */
  ghost predicate SourceSettled(entries: seq<ShortestPath>, s: int)
  {
    0 <= s < |entries| && entries[s] == ShortestPath(Dist(0.0), -1)
  }

  /** A node keeps the sentinel distance exactly when no walk reaches it. */
  ghost predicate UnreachedExactlyUnreachable(conns: Connections, entries: seq<ShortestPath>, s: int)
  {
    forall v :: 0 <= v < |entries| ==>
      (entries[v].shortestDistance == NoDistance <==> !Reachable(conns, s, v))
  }

  /** A node with the sentinel distance has predecessor -1. */
  ghost predicate UnreachedHaveNoPredecessor(entries: seq<ShortestPath>)
  {
    forall v :: 0 <= v < |entries| && entries[v].shortestDistance == NoDistance ==>
      entries[v].previousVertexIndex == -1
  }

  /** Every recorded distance is the weight of some walk from the source,
      and no walk from the source to that node is lighter. */
  ghost predicate DistancesAreShortest(conns: Connections, entries: seq<ShortestPath>, s: int)
  {
    forall v :: 0 <= v < |entries| && entries[v].shortestDistance.Dist? ==>
      && (exists p :: IsPathFromTo(conns, p, s, v) && Cost(conns, p) == entries[v].shortestDistance.value)
      && (forall p :: IsPathFromTo(conns, p, s, v) ==> entries[v].shortestDistance.value <= Cost(conns, p))
  }

  /** The predecessor of a reached node `v` is a reached neighbour whose
      distance plus the connecting weight is `v`'s distance. */
  ghost predicate PredecessorStep(conns: Connections, entries: seq<ShortestPath>, v: int)
    requires 0 <= v < |entries| && entries[v].shortestDistance.Dist?
  {
    var u := entries[v].previousVertexIndex;
    && 0 <= u < |entries|
    && Adjacent(conns, u, v)
    && entries[u].shortestDistance.Dist?
    && entries[v].shortestDistance.value == entries[u].shortestDistance.value + Weight(conns, u, v)
  }

  /** Every reached node other than the source has such a predecessor. */
  ghost predicate PredecessorsOnShortestPaths(conns: Connections, entries: seq<ShortestPath>, s: int)
  {
    forall v :: 0 <= v < |entries| && v != s && entries[v].shortestDistance.Dist? ==>
      PredecessorStep(conns, entries, v)
  }

  /** `rank` strictly decreases from every reached non-source node to its
      predecessor, so following predecessors ends (at the source). */
  ghost predicate PredecessorsRanked(entries: seq<ShortestPath>, s: int, rank: seq<nat>)
  {
    && |rank| == |entries|
    && forall v :: 0 <= v < |entries| && v != s && entries[v].shortestDistance.Dist? ==>
         0 <= entries[v].previousVertexIndex < |entries|
         && rank[entries[v].previousVertexIndex] < rank[v]
  }

  // ---------------------------------------------------------------------
  // The state while nodes are settled

  /** The node indices 0 .. n-1. */
  function Indices(n: int): (r: set<int>)
    ensures forall v :: v in r <==> 0 <= v < n
    decreases n
  {
    if n <= 0 then {} else Indices(n - 1) + {n - 1}
  }

  /** Every reached node `v` is at the weight of the walk `paths[v]` from
      `s`, which is never negative. */
  ghost predicate WalksWitness(conns: Connections, entries: seq<ShortestPath>, paths: seq<seq<int>>, s: int)
  {
    && |paths| == |entries|
    && forall v :: 0 <= v < |entries| && entries[v].shortestDistance.Dist? ==>
         && IsPathFromTo(conns, paths[v], s, v)
         && Cost(conns, paths[v]) == entries[v].shortestDistance.value
         && entries[v].shortestDistance.value >= 0.0
  }

  /** Every reached node other than `s` has a visited predecessor that
      accounts for its distance. */
  ghost predicate PredecessorsVisited(conns: Connections, entries: seq<ShortestPath>, visited: set<int>, s: int)
  {
    forall v :: 0 <= v < |entries| && v != s && entries[v].shortestDistance.Dist? ==>
      entries[v].previousVertexIndex in visited && PredecessorStep(conns, entries, v)
  }

  /**
   * The tentative distances: the source at 0, unreached nodes without a
   * predecessor, reached nodes at the weight of a walk to them, and
   * predecessors already visited.
   */
  ghost predicate Tentative(conns: Connections, entries: seq<ShortestPath>, paths: seq<seq<int>>,
                            visited: set<int>, s: int)
  {
    && SourceSettled(entries, s)
    && UnreachedHaveNoPredecessor(entries)
    && WalksWitness(conns, entries, paths, s)
    && PredecessorsVisited(conns, entries, visited, s)
  }

  /** Every visited node has a distance that no walk from `s` beats. */
  ghost predicate Settled(conns: Connections, entries: seq<ShortestPath>, visited: set<int>, s: int)
  {
    forall v :: v in visited ==>
      && 0 <= v < |entries|
      && entries[v].shortestDistance.Dist?
      && forall p :: IsPathFromTo(conns, p, s, v) ==> entries[v].shortestDistance.value <= Cost(conns, p)
  }

  /** Every connection from a visited to an unvisited node has been
      relaxed: the unvisited end is reached, at most that far. */
  ghost predicate Relaxed(conns: Connections, entries: seq<ShortestPath>, visited: set<int>)
  {
    forall a, b :: a in visited && 0 <= b < |entries| && b !in visited && Adjacent(conns, a, b) ==>
      && 0 <= a < |entries|
      && entries[a].shortestDistance.Dist?
      && entries[b].shortestDistance.Dist?
      && entries[b].shortestDistance.value <= entries[a].shortestDistance.value + Weight(conns, a, b)
  }

  /** `u` is an unvisited reached node of least distance. */
  ghost predicate IsNextToVisit(entries: seq<ShortestPath>, visited: set<int>, u: int)
  {
    && 0 <= u < |entries| && u !in visited && entries[u].shortestDistance.Dist?
    && forall x :: 0 <= x < |entries| && x !in visited && entries[x].shortestDistance.Dist? ==>
         entries[u].shortestDistance.value <= entries[x].shortestDistance.value
  }

  /** Every unvisited node still has the sentinel distance. */
  ghost predicate NoneToVisit(entries: seq<ShortestPath>, visited: set<int>)
  {
    forall x :: 0 <= x < |entries| && x !in visited ==> entries[x].shortestDistance == NoDistance
  }

  /**
   * Picks the next node to settle: an unvisited reached node of least
   * distance, or -1 when every unvisited node is still unreached.
   */
  method NextToVisit(entries: seq<ShortestPath>, visited: set<int>) returns (best: int)
    ensures best == -1 ==> NoneToVisit(entries, visited)
    ensures best != -1 ==> IsNextToVisit(entries, visited, best)
  {
    best := -1;
    var v := 0;
    while v < |entries|
      invariant 0 <= v <= |entries|
      invariant best == -1 ==> forall x :: 0 <= x < v && x !in visited ==> entries[x].shortestDistance == NoDistance
      invariant best != -1 ==> 0 <= best < v && best !in visited && entries[best].shortestDistance.Dist?
      invariant best != -1 ==> forall x :: 0 <= x < v && x !in visited && entries[x].shortestDistance.Dist? ==>
                  entries[best].shortestDistance.value <= entries[x].shortestDistance.value
    {
      if v !in visited && entries[v].shortestDistance.Dist? {
        if best == -1 || entries[v].shortestDistance.value < entries[best].shortestDistance.value {
          best := v;
        }
      }
      v := v + 1;
    }
  }

  /**
   * Relaxes the stored connection `k` from the visited node `u` (at
   * distance `du`): its far end `other`, when unvisited and either not
   * reached or farther than `du` plus the weight, gets that distance and
   * `u` as predecessor.
   */
  method RelaxConnection(conns: Connections, k: Id, u: int, du: real, s: int, entries: seq<ShortestPath>,
                         visited: set<int>, ghost paths: seq<seq<int>>)
    returns (relaxed: seq<ShortestPath>, ghost relaxedPaths: seq<seq<int>>, other: int)
    requires Keyed(conns, |entries|) && NonNegative(conns)
    requires k in conns && conns[k].ContainsNodeIndex(u)
    requires u in visited && 0 <= u < |entries| && entries[u].shortestDistance == Dist(du)
    requires forall v :: v in visited ==> 0 <= v < |entries|
    requires Tentative(conns, entries, paths, visited, s) && Relaxed(conns, entries, visited - {u})
    ensures |relaxed| == |entries| && forall v :: v in visited ==> relaxed[v] == entries[v]
    ensures Tentative(conns, relaxed, relaxedPaths, visited, s) && Relaxed(conns, relaxed, visited - {u})
    ensures forall b :: PairId(u, b) == k ==> b == other
    ensures forall b :: 0 <= b < |entries| && b != other ==> relaxed[b] == entries[b]
    ensures 0 <= other < |entries| && entries[other].shortestDistance.Dist? ==>
              relaxed[other].shortestDistance.Dist?
              && relaxed[other].shortestDistance.value <= entries[other].shortestDistance.value
    ensures 0 <= other < |entries| && other !in visited ==>
              relaxed[other].shortestDistance.Dist?
              && relaxed[other].shortestDistance.value <= du + Weight(conns, u, other)
  {
    OtherEnd(conns, |entries|, k, u);
    var c := conns[k];
    other := if c.nodeIndex0 == u then c.nodeIndex1 else c.nodeIndex0;
    relaxed, relaxedPaths := entries, paths;
    if other !in visited {
      var candidate := du + c.weight;
      if entries[other].shortestDistance == NoDistance || candidate < entries[other].shortestDistance.value {
        assert other != s;
        LowerKeepsTentative(conns, entries, paths, visited, s, u, other, candidate);
        LowerKeepsRelaxed(conns, entries, visited - {u}, other, ShortestPath(Dist(candidate), u));
        relaxed := entries[other := ShortestPath(Dist(candidate), u)];
        relaxedPaths := paths[other := paths[u] + [other]];
      }
    }
  }

  /**
   * One relaxation round: for each connection key in `ids` (the adjacency
   * list of the newly visited node `u`), an unvisited far end that is not
   * reached yet, or whose distance exceeds `u`'s distance plus the
   * connection's weight, gets that smaller distance and `u` as predecessor.
   */
  method RelaxFrom(conns: Connections, ids: seq<Id>, u: int, s: int, entries: seq<ShortestPath>,
                   visited: set<int>, ghost paths: seq<seq<int>>)
    returns (relaxed: seq<ShortestPath>, ghost relaxedPaths: seq<seq<int>>)
    requires Keyed(conns, |entries|) && NonNegative(conns)
    requires forall k :: k in ids ==> k in conns && conns[k].ContainsNodeIndex(u)
    requires forall b :: Adjacent(conns, u, b) ==> PairId(u, b) in ids
    requires u in visited && forall v :: v in visited ==> 0 <= v < |entries|
    requires Tentative(conns, entries, paths, visited, s)
    requires entries[u].shortestDistance.Dist? && Relaxed(conns, entries, visited - {u})
    ensures |relaxed| == |entries|
    ensures forall v :: v in visited ==> relaxed[v] == entries[v]
    ensures Tentative(conns, relaxed, relaxedPaths, visited, s)
    ensures Relaxed(conns, relaxed, visited)
  {
    relaxed, relaxedPaths := entries, paths;
    var du := entries[u].shortestDistance.value;
    RelaxingFromStart(conns, ids, u, du, s, entries, visited, paths);
    for t := 0 to |ids|
      invariant RelaxingFrom(conns, ids, u, du, s, entries, visited, relaxed, relaxedPaths, t)
    {
      relaxed, relaxedPaths := RelaxAt(conns, ids, u, du, s, entries, visited, relaxed, relaxedPaths, t);
    }
    RelaxedAlongComplete(conns, relaxed, visited, u, du, ids);
  }

  /** The state of `RelaxFrom` after the first `t` keys of `ids`. */
  ghost predicate RelaxingFrom(conns: Connections, ids: seq<Id>, u: int, du: real, s: int,
                               entries: seq<ShortestPath>, visited: set<int>,
                               relaxed: seq<ShortestPath>, relaxedPaths: seq<seq<int>>, t: int)
  {
    && |relaxed| == |entries|
    && (forall v :: v in visited ==> 0 <= v < |entries| && relaxed[v] == entries[v])
    && Tentative(conns, relaxed, relaxedPaths, visited, s)
    && Relaxed(conns, relaxed, visited - {u})
    && RelaxedAlong(conns, relaxed, visited, u, du, ids, t)
  }

  /** Before any key of `ids` is relaxed. */
  lemma RelaxingFromStart(conns: Connections, ids: seq<Id>, u: int, du: real, s: int,
                          entries: seq<ShortestPath>, visited: set<int>, paths: seq<seq<int>>)
    requires forall v :: v in visited ==> 0 <= v < |entries|
    requires Tentative(conns, entries, paths, visited, s) && Relaxed(conns, entries, visited - {u})
    ensures RelaxingFrom(conns, ids, u, du, s, entries, visited, entries, paths, 0)
  {
  }

  /** One step of `RelaxFrom`: relaxes the connection `ids[t]`. */
  method RelaxAt(conns: Connections, ids: seq<Id>, u: int, du: real, s: int, entries: seq<ShortestPath>,
                 visited: set<int>, relaxed: seq<ShortestPath>, ghost relaxedPaths: seq<seq<int>>, t: int)
    returns (relaxed': seq<ShortestPath>, ghost relaxedPaths': seq<seq<int>>)
    requires Keyed(conns, |entries|) && NonNegative(conns)
    requires 0 <= t < |ids| && ids[t] in conns && conns[ids[t]].ContainsNodeIndex(u)
    requires u in visited && forall v :: v in visited ==> 0 <= v < |entries|
    requires entries[u].shortestDistance == Dist(du)
    requires RelaxingFrom(conns, ids, u, du, s, entries, visited, relaxed, relaxedPaths, t)
    ensures RelaxingFrom(conns, ids, u, du, s, entries, visited, relaxed', relaxedPaths', t + 1)
  {
    var other;
    relaxed', relaxedPaths', other := RelaxConnection(conns, ids[t], u, du, s, relaxed, visited, relaxedPaths);
    RelaxedAlongStep(conns, relaxed, relaxed', visited, u, du, ids, t, other);
  }

  /** Every connection among the first `t` keys of `ids` from `u` (at
      distance `du`) to an unvisited node has been relaxed. */
  ghost predicate RelaxedAlong(conns: Connections, entries: seq<ShortestPath>, visited: set<int>,
                               u: int, du: real, ids: seq<Id>, t: int)
  {
    && 0 <= t <= |ids|
    && forall j, b :: 0 <= j < t && ids[j] == PairId(u, b) && 0 <= b < |entries| && b !in visited ==>
         entries[b].shortestDistance.Dist? && entries[b].shortestDistance.value <= du + Weight(conns, u, b)
  }

  /** Relaxing the connection `ids[t]`, whose far end is `other`, extends
      the relaxed prefix by one key. */
  lemma RelaxedAlongStep(conns: Connections, entries: seq<ShortestPath>, entries': seq<ShortestPath>,
                         visited: set<int>, u: int, du: real, ids: seq<Id>, t: int, other: int)
    requires RelaxedAlong(conns, entries, visited, u, du, ids, t) && t < |ids|
    requires forall b :: PairId(u, b) == ids[t] ==> b == other
    requires |entries'| == |entries|
    requires forall b :: 0 <= b < |entries| && b != other ==> entries'[b] == entries[b]
    requires 0 <= other < |entries| && entries[other].shortestDistance.Dist? ==>
               entries'[other].shortestDistance.Dist?
               && entries'[other].shortestDistance.value <= entries[other].shortestDistance.value
    requires 0 <= other < |entries| && other !in visited ==>
               entries'[other].shortestDistance.Dist?
               && entries'[other].shortestDistance.value <= du + Weight(conns, u, other)
    ensures RelaxedAlong(conns, entries', visited, u, du, ids, t + 1)
  {
  }

  /** Once all of `u`'s adjacency list is relaxed, every connection from
      the visited set (now holding `u`) to an unvisited node is. */
  lemma RelaxedAlongComplete(conns: Connections, entries: seq<ShortestPath>, visited: set<int>,
                             u: int, du: real, ids: seq<Id>)
    requires RelaxedAlong(conns, entries, visited, u, du, ids, |ids|)
    requires Relaxed(conns, entries, visited - {u})
    requires forall b :: Adjacent(conns, u, b) ==> PairId(u, b) in ids
    requires u in visited && 0 <= u < |entries| && entries[u].shortestDistance == Dist(du)
    ensures Relaxed(conns, entries, visited)
  {
    forall a, b | a in visited && 0 <= b < |entries| && b !in visited && Adjacent(conns, a, b)
      ensures entries[b].shortestDistance.Dist?
              && entries[b].shortestDistance.value <= entries[a].shortestDistance.value + Weight(conns, a, b)
    {
      if a == u {
        var j :| 0 <= j < |ids| && ids[j] == PairId(u, b);
      }
    }
  }

  /** Lowering the distance of an unvisited node `v` to `u`'s distance plus
      the connecting weight, with `u` as predecessor and `u`'s walk
      extended to `v`, keeps the tentative distances consistent. */
  lemma LowerKeepsTentative(conns: Connections, entries: seq<ShortestPath>, paths: seq<seq<int>>,
                            visited: set<int>, s: int, u: int, v: int, d: real)
    requires Tentative(conns, entries, paths, visited, s) && NonNegative(conns)
    requires 0 <= u < |entries| && u in visited && entries[u].shortestDistance.Dist?
    requires 0 <= v < |entries| && v != s && v !in visited && Adjacent(conns, u, v)
    requires d == entries[u].shortestDistance.value + Weight(conns, u, v)
    ensures Tentative(conns, entries[v := ShortestPath(Dist(d), u)], paths[v := paths[u] + [v]], visited, s)
  {
    var e', p' := entries[v := ShortestPath(Dist(d), u)], paths[v := paths[u] + [v]];
    PathAppend(conns, paths[u], s, u, v);
    assert conns[PairId(u, v)].weight >= 0.0;
    assert WalksWitness(conns, e', p', s) by {
      forall x | 0 <= x < |e'| && e'[x].shortestDistance.Dist?
        ensures IsPathFromTo(conns, p'[x], s, x) && Cost(conns, p'[x]) == e'[x].shortestDistance.value
                && e'[x].shortestDistance.value >= 0.0
      {
        if x != v {
          assert e'[x] == entries[x] && p'[x] == paths[x];
        }
      }
    }
    assert PredecessorsVisited(conns, e', visited, s) by {
      forall x | 0 <= x < |e'| && x != s && e'[x].shortestDistance.Dist?
        ensures e'[x].previousVertexIndex in visited && PredecessorStep(conns, e', x)
      {
        if x != v {
          assert e'[x] == entries[x];
          assert PredecessorStep(conns, entries, x);
        }
      }
    }
  }

  /** Lowering the distance of a node outside `done` keeps the
      connections out of `done` relaxed. */
  lemma LowerKeepsRelaxed(conns: Connections, entries: seq<ShortestPath>, done: set<int>, v: int, e: ShortestPath)
    requires Relaxed(conns, entries, done)
    requires 0 <= v < |entries| && v !in done && e.shortestDistance.Dist?
    requires entries[v].shortestDistance.Dist? ==> e.shortestDistance.value <= entries[v].shortestDistance.value
    ensures Relaxed(conns, entries[v := e], done)
  {
  }

  /** Settledness only depends on the entries of visited nodes. */
  lemma SettledAgrees(conns: Connections, entries: seq<ShortestPath>, entries': seq<ShortestPath>,
                      visited: set<int>, s: int)
    requires Settled(conns, entries, visited, s)
    requires |entries'| == |entries| && forall v :: v in visited ==> entries'[v] == entries[v]
    ensures Settled(conns, entries', visited, s)
  {
  }

  /** The loop state of Dijkstra's algorithm from `s`: tentative
      distances with their walks, settled visited nodes, relaxed
      connections out of them, and visit ranks below `round` that
      increase from every visited node's predecessor to it. */
  ghost predicate Progress(conns: Connections, entries: seq<ShortestPath>, paths: seq<seq<int>>,
                           visited: set<int>, s: int, rank: seq<nat>, round: nat)
  {
    && |rank| == |entries|
    && (forall v :: v in visited ==> 0 <= v < |entries| && rank[v] < round)
    && Tentative(conns, entries, paths, visited, s)
    && (forall v :: v in visited && v != s ==>
          entries[v].previousVertexIndex in visited && rank[entries[v].previousVertexIndex] < rank[v])
    && Settled(conns, entries, visited, s)
    && Relaxed(conns, entries, visited)
  }

  /**
   * Visits `u`, the next node to visit: marks it visited with the next
   * rank and relaxes the connections listed in its adjacency list `ids`.
   */
  method Visit(conns: Connections, ids: seq<Id>, u: int, s: int, entries: seq<ShortestPath>, visited: set<int>,
               ghost paths: seq<seq<int>>, ghost rank: seq<nat>, ghost round: nat)
    returns (entries': seq<ShortestPath>, visited': set<int>, ghost paths': seq<seq<int>>, ghost rank': seq<nat>)
    requires Keyed(conns, |entries|) && NonNegative(conns)
    requires forall k :: k in ids ==> k in conns && conns[k].ContainsNodeIndex(u)
    requires forall b :: Adjacent(conns, u, b) ==> PairId(u, b) in ids
    requires Progress(conns, entries, paths, visited, s, rank, round)
    requires IsNextToVisit(entries, visited, u)
    ensures visited' == visited + {u} && |entries'| == |entries|
    ensures Progress(conns, entries', paths', visited', s, rank', round + 1)
  {
    NextToVisitIsShortest(conns, entries, visited, s, u);
    visited' := visited + {u};
    rank' := rank[u := round];
    entries', paths' := RelaxFrom(conns, ids, u, s, entries, visited', paths);
    ProgressAfterVisit(conns, entries, entries', paths', visited, s, u, rank, round);
  }

  /** The loop state after visiting `u` and relaxing its connections. */
  lemma ProgressAfterVisit(conns: Connections, entries: seq<ShortestPath>, entries': seq<ShortestPath>,
                           paths': seq<seq<int>>, visited: set<int>, s: int, u: int, rank: seq<nat>, round: nat)
    requires |rank| == |entries| && forall v :: v in visited ==> 0 <= v < |entries| && rank[v] < round
    requires forall v :: v in visited && v != s ==>
               entries[v].previousVertexIndex in visited && rank[entries[v].previousVertexIndex] < rank[v]
    requires IsNextToVisit(entries, visited, u)
    requires u != s ==> entries[u].previousVertexIndex in visited
    requires Settled(conns, entries, visited + {u}, s)
    requires |entries'| == |entries| && forall v :: v in visited + {u} ==> entries'[v] == entries[v]
    requires Tentative(conns, entries', paths', visited + {u}, s) && Relaxed(conns, entries', visited + {u})
    ensures Progress(conns, entries', paths', visited + {u}, s, rank[u := round], round + 1)
  {
    SettledAgrees(conns, entries, entries', visited + {u}, s);
    RankAfterVisit(entries, entries', visited, s, u, rank, round);
  }

  /** Giving the newly visited `u` the current round as its rank keeps
      every visited node's predecessor visited and ranked below it. */
  lemma RankAfterVisit(entries: seq<ShortestPath>, entries': seq<ShortestPath>, visited: set<int>,
                       s: int, u: int, rank: seq<nat>, round: nat)
    requires |rank| == |entries| && forall v :: v in visited ==> 0 <= v < |entries| && rank[v] < round
    requires forall v :: v in visited && v != s ==>
               entries[v].previousVertexIndex in visited && rank[entries[v].previousVertexIndex] < rank[v]
    requires 0 <= u < |entries| && u !in visited
    requires u != s ==> entries[u].previousVertexIndex in visited
    requires |entries'| == |entries| && forall v :: v in visited + {u} ==> entries'[v] == entries[v]
    ensures forall v :: v in visited + {u} ==> 0 <= v < |entries'| && rank[u := round][v] < round + 1
    ensures forall v :: v in visited + {u} && v != s ==>
              entries'[v].previousVertexIndex in visited + {u}
              && rank[u := round][entries'[v].previousVertexIndex] < rank[u := round][v]
  {
    forall v | v in visited + {u} && v != s
      ensures entries'[v].previousVertexIndex in visited + {u}
              && rank[u := round][entries'[v].previousVertexIndex] < rank[u := round][v]
    {
      assert entries'[v] == entries[v];
    }
  }


  /**
   * When no unvisited node is reached, the settled entries form a
   * shortest-path tree from `s`.
   */
  lemma FinishedTree(conns: Connections, entries: seq<ShortestPath>, paths: seq<seq<int>>,
                     visited: set<int>, s: int, rank: seq<nat>, round: nat)
    requires Keyed(conns, |entries|)
    requires Progress(conns, entries, paths, visited, s, rank, round)
    requires NoneToVisit(entries, visited)
    ensures SourceSettled(entries, s)
    ensures UnreachedExactlyUnreachable(conns, entries, s)
    ensures UnreachedHaveNoPredecessor(entries)
    ensures DistancesAreShortest(conns, entries, s)
    ensures PredecessorsOnShortestPaths(conns, entries, s)
    ensures PredecessorsRanked(entries, s, rank)
  {
    forall v | 0 <= v < |entries|
      ensures entries[v].shortestDistance == NoDistance <==> !Reachable(conns, s, v)
    {
      if entries[v].shortestDistance == NoDistance {
        forall p | IsPathFromTo(conns, p, s, v) ensures false {
          ExhaustedWalkEndsVisited(conns, entries, visited, s, p, v);
        }
      } else {
        assert IsPathFromTo(conns, paths[v], s, v);
      }
    }
    forall v | 0 <= v < |entries| && entries[v].shortestDistance.Dist?
      ensures exists p :: IsPathFromTo(conns, p, s, v) && Cost(conns, p) == entries[v].shortestDistance.value
    {
      assert IsPathFromTo(conns, paths[v], s, v);
    }
  }

  // ---------------------------------------------------------------------
  // Why settling the nearest unvisited node is right

  /**
   * A walk from the source that ends outside the visited set weighs at
   * least as much as the distance of the next node to visit: its first
   * unvisited stop was reached through a relaxed connection.
   */
  lemma {:induction false} UnvisitedEndBound(conns: Connections, entries: seq<ShortestPath>, visited: set<int>,
                                             s: int, u: int, p: seq<int>, w: int)
    requires Keyed(conns, |entries|) && NonNegative(conns)
    requires 0 <= s < |entries| && entries[s].shortestDistance == Dist(0.0)
    requires Settled(conns, entries, visited, s) && Relaxed(conns, entries, visited)
    requires IsNextToVisit(entries, visited, u)
    requires IsPathFromTo(conns, p, s, w) && w !in visited
    ensures entries[u].shortestDistance.value <= Cost(conns, p)
  {
    if |p| > 1 {
      var q, a := p[..|p| - 1], p[|p| - 2];
      PathDropLast(conns, p, s, w);
      AdjacentEndpoints(conns, |entries|, a, w);
      CostNonNegative(conns, q);
      assert Weight(conns, a, w) >= 0.0;
      if a !in visited {
        UnvisitedEndBound(conns, entries, visited, s, u, q, a);
      }
    }
  }

  /** Hence the next node to visit is settled: no walk to it is lighter
      than its distance. */
  lemma NextToVisitIsShortest(conns: Connections, entries: seq<ShortestPath>, visited: set<int>, s: int, u: int)
    requires Keyed(conns, |entries|) && NonNegative(conns)
    requires 0 <= s < |entries| && entries[s].shortestDistance == Dist(0.0)
    requires Settled(conns, entries, visited, s) && Relaxed(conns, entries, visited)
    requires IsNextToVisit(entries, visited, u)
    ensures Settled(conns, entries, visited + {u}, s)
  {
    forall p | IsPathFromTo(conns, p, s, u)
      ensures entries[u].shortestDistance.value <= Cost(conns, p)
    {
      UnvisitedEndBound(conns, entries, visited, s, u, p, u);
    }
  }

  /**
   * When no unvisited node is reached, every walk from the (reached)
   * source ends at a visited node: unvisited nodes are unreachable.
   */
  lemma {:induction false} ExhaustedWalkEndsVisited(conns: Connections, entries: seq<ShortestPath>, visited: set<int>,
                                                    s: int, p: seq<int>, w: int)
    requires Keyed(conns, |entries|)
    requires 0 <= s < |entries| && entries[s].shortestDistance.Dist?
    requires Relaxed(conns, entries, visited) && NoneToVisit(entries, visited)
    requires IsPathFromTo(conns, p, s, w)
    ensures w in visited
  {
    if |p| > 1 {
      var q, a := p[..|p| - 1], p[|p| - 2];
      PathDropLast(conns, p, s, w);
      AdjacentEndpoints(conns, |entries|, a, w);
      ExhaustedWalkEndsVisited(conns, entries, visited, s, q, a);
    }
  }

  // ---------------------------------------------------------------------
  // Reading a route off a finished tree

  /** A walk from the source to `t` that is no heavier than any other
      weighs exactly `t`'s recorded distance. */
  lemma ShortestWalkCostIsDistance(conns: Connections, entries: seq<ShortestPath>, s: int, t: int, p: seq<int>)
    requires DistancesAreShortest(conns, entries, s)
    requires 0 <= t < |entries| && entries[t].shortestDistance.Dist?
    requires IsPathFromTo(conns, p, s, t)
    requires forall q :: IsPathFromTo(conns, q, s, t) ==> Cost(conns, p) <= Cost(conns, q)
    ensures Cost(conns, p) == entries[t].shortestDistance.value
  {
  }

  /** Follows predecessors back from a reached node `t` to the source and
      returns the stops in travel order: a walk from the source to `t`
      whose weight is `t`'s recorded distance. */
  method TracePredecessors(conns: Connections, entries: seq<ShortestPath>, s: int, t: int, ghost rank: seq<nat>)
    returns (stops: seq<int>)
    requires 0 <= t < |entries| && entries[t].shortestDistance.Dist?
    requires SourceSettled(entries, s)
    requires PredecessorsOnShortestPaths(conns, entries, s)
    requires PredecessorsRanked(entries, s, rank)
    ensures IsPathFromTo(conns, stops, s, t)
    ensures Cost(conns, stops) == entries[t].shortestDistance.value
  {
    var back, current := [t], t;
    while current != s
      invariant 0 <= current < |entries| && entries[current].shortestDistance.Dist?
      invariant IsPathFromTo(conns, Reversed(back), current, t)
      invariant Cost(conns, Reversed(back)) + entries[current].shortestDistance.value
                == entries[t].shortestDistance.value
      decreases rank[current]
    {
      assert PredecessorStep(conns, entries, current);
      var previous := entries[current].previousVertexIndex;
      PathPrepend(conns, Reversed(back), previous, current, t);
      ReversedAppend(back, previous);
      back, current := back + [previous], previous;
    }
    stops := Reversed(back);
  }
}
