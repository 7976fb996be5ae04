/**
 * The graph engine: one node per star system, an undirected weighted
 * connection for every pair of systems within jump range (plus manual
 * ones), and the queries over it: neighbours, Dijkstra's shortest-path
 * tree, routes and proximity.
 */
module Graph {
  import opened PairIds
  import opened Universe
  import opened GraphTypes
  import opened Paths
  import opened Dijkstra

  /** `order` lists distinct indices of `keys` in ascending order of
      their keys. */
  predicate SortedBy(keys: seq<real>, order: seq<int>)
  {
    && (forall x :: 0 <= x < |order| ==> 0 <= order[x] < |keys|)
    && (forall x, y :: 0 <= x < y < |order| ==> order[x] != order[y])
    && (forall x, y :: 0 <= x < y < |order| ==> keys[order[x]] <= keys[order[y]])
  }

  /** The indices 0 .. |keys|-1, each once, in ascending order of their
      keys. */
  method SortByKey(keys: seq<real>) returns (order: seq<int>)
    ensures |order| == |keys|
    ensures forall v :: v in order <==> 0 <= v < |keys|
    ensures SortedBy(keys, order)
  {
    order := [];
    for i := 0 to |keys|
      invariant |order| == i
      invariant forall v :: v in order <==> 0 <= v < i
      invariant SortedBy(keys, order)
    {
      order := InsertByKey(keys, order, i);
    }
  }

  /** Inserts index `i` into a key-sorted list after every index whose key
      is not larger. */
  method InsertByKey(keys: seq<real>, order: seq<int>, i: int) returns (inserted: seq<int>)
    requires SortedBy(keys, order) && 0 <= i < |keys| && i !in order
    ensures |inserted| == |order| + 1
    ensures forall v :: v in inserted <==> v in order || v == i
    ensures SortedBy(keys, inserted)
  {
    var pos := 0;
    while pos < |order| && keys[order[pos]] <= keys[i]
      invariant 0 <= pos <= |order|
      invariant forall x :: 0 <= x < pos ==> keys[order[x]] <= keys[i]
    {
      pos := pos + 1;
    }
    assert forall x :: pos <= x < |order| ==> keys[i] < keys[order[x]];
    inserted := order[..pos] + [i] + order[pos..];
    SplicedSorted(keys, order, pos, i);
  }

  /** Splicing `i` in where the keys before are not larger and the keys
      after are larger keeps the list sorted and adds exactly `i`. */
  lemma SplicedSorted(keys: seq<real>, order: seq<int>, pos: int, i: int)
    requires SortedBy(keys, order) && 0 <= i < |keys| && i !in order && 0 <= pos <= |order|
    requires forall x :: 0 <= x < pos ==> keys[order[x]] <= keys[i]
    requires forall x :: pos <= x < |order| ==> keys[i] < keys[order[x]]
    ensures forall v :: v in order[..pos] + [i] + order[pos..] <==> v in order || v == i
    ensures SortedBy(keys, order[..pos] + [i] + order[pos..])
  {
    var r := order[..pos] + [i] + order[pos..];
    assert forall x :: 0 <= x < |r| ==> r[x] == if x < pos then order[x] else if x == pos then i else order[x - 1];
    assert order == order[..pos] + order[pos..];
    forall x, y | 0 <= x < y < |r|
      ensures r[x] != r[y] && keys[r[x]] <= keys[r[y]]
    {
      if x < pos && y == pos {
        assert r[x] in order;
      } else if x == pos && y > pos {
        assert r[y] in order;
      }
    }
  }

  /** Storing a connection for (a, b) and then one for (b, a) stores a
      single connection under one key: the second replaces the first. */
  lemma ReversedPairReplaces(conns: Connections, a: int, b: int, first: Connection, second: Connection)
    ensures var stored := conns[PairId(a, b) := first][PairId(b, a) := second];
            && stored.Keys == conns.Keys + {PairId(a, b)}
            && stored == conns[PairId(a, b) := second]
  {
  }

  /** Storing a connection for the pair (i, j) with i < j makes i and j
      adjacent with its weight and leaves every other pair as it was. */
  lemma StoreKeepsOthers(conns: Connections, n: int, i: int, j: int, c: Connection)
    requires 0 <= i < j < n
    ensures var stored := conns[PairId(i, j) := c];
            && Adjacent(stored, i, j) && Weight(stored, i, j) == c.weight
            && forall a, b :: 0 <= a < b < n && (a, b) != (i, j) ==>
                 (Adjacent(stored, a, b) <==> Adjacent(conns, a, b)) && Weight(stored, a, b) == Weight(conns, a, b)
  {
    forall a, b | 0 <= a < b < n && (a, b) != (i, j)
      ensures PairId(a, b) != PairId(i, j)
    {
      PairIdInjective(a, b, i, j);
    }
  }

  /** The names of `nodes`, in order. */
  function NodeNames(nodes: seq<Node>): (r: seq<string>)
    ensures |r| == |nodes|
    ensures forall i :: 0 <= i < |nodes| ==> r[i] == nodes[i].name
  {
    seq(|nodes|, i requires 0 <= i < |nodes| => nodes[i].name)
  }

  class Graph {
    var jumpRange: real
    var nodes: seq<Node>
    var connections: Connections

    /** The storage invariant: connections are well keyed, distinct-ended
        and non-negative, and adjacency lists match the connection map. */
    ghost predicate Valid()
      reads this
    {
      WellFormed(nodes, connections)
    }

    /** The empty graph: jump range 0, no nodes, no connections. */
    constructor Empty()
      ensures Valid()
      ensures jumpRange == 0.0 && nodes == [] && connections == map[]
    {
      jumpRange := 0.0;
      nodes := [];
      connections := map[];
    }

    /**
     * Builds the graph of `universe`: one node per system, in order, with
     * its name and position, and a connection weighted by their distance
     * between every two systems at most `jumpRange` apart. `dist` is the
     * distance between two positions.
     */
    constructor (universe: Universe, jumpRange: real, dist: (Vec3, Vec3) -> real)
      requires forall p, q :: 0.0 <= dist(p, q) && dist(p, q) == dist(q, p)
      ensures Valid()
      ensures this.jumpRange == jumpRange
      ensures |nodes| == |universe.systems|
      ensures forall i :: 0 <= i < |nodes| ==>
                nodes[i].name == universe.systems[i].name && nodes[i].position == universe.systems[i].position
      ensures forall i, j :: 0 <= i < |nodes| && 0 <= j < |nodes| && i != j ==>
                (AreNeighbors(i, j) <==> dist(nodes[i].position, nodes[j].position) <= jumpRange)
      ensures forall i, j :: 0 <= i < |nodes| && 0 <= j < |nodes| && AreNeighbors(i, j) ==>
                GetNeighborInfo(i, j).distance == dist(nodes[i].position, nodes[j].position)
    {
      var systems := universe.systems;
      this.jumpRange := jumpRange;
      nodes := seq(|systems|, i requires 0 <= i < |systems| => Node(systems[i].name, [], systems[i].position));
      connections := map[];
      new;
      var n := |nodes|;
      for i := 0 to n
        invariant Valid() && this.jumpRange == jumpRange && |nodes| == n
        invariant forall x :: 0 <= x < n ==>
                    nodes[x].name == systems[x].name && nodes[x].position == systems[x].position
        invariant forall a, b :: 0 <= a < b < n ==>
                    (Adjacent(connections, a, b) <==> a < i && dist(nodes[a].position, nodes[b].position) <= jumpRange)
        invariant forall a, b :: 0 <= a < b < n && Adjacent(connections, a, b) ==>
                    Weight(connections, a, b) == dist(nodes[a].position, nodes[b].position)
      {
        ConnectRow(i, dist);
      }
      forall i, j | 0 <= i < n && 0 <= j < n && i != j
        ensures AreNeighbors(i, j) <==> dist(nodes[i].position, nodes[j].position) <= jumpRange
        ensures AreNeighbors(i, j) ==> Weight(connections, i, j) == dist(nodes[i].position, nodes[j].position)
      {
        WeightSymmetric(connections, i, j);
      }
    }

    /**
     * The constructor's inner loop: connects node `i` to every later node
     * within jump range, weighted by their distance.
     */
    method ConnectRow(i: int, dist: (Vec3, Vec3) -> real)
      requires Valid() && 0 <= i < |nodes|
      requires forall p, q :: 0.0 <= dist(p, q)
      requires forall b :: i < b < |nodes| ==> !Adjacent(connections, i, b)
      modifies this
      ensures Valid()
      ensures jumpRange == old(jumpRange) && SameSystems(old(nodes), nodes)
      ensures forall a, b :: 0 <= a < b < |nodes| && a != i ==>
                (Adjacent(connections, a, b) <==> Adjacent(old(connections), a, b))
                && Weight(connections, a, b) == Weight(old(connections), a, b)
      ensures forall b :: i < b < |nodes| ==>
                (Adjacent(connections, i, b) <==> dist(nodes[i].position, nodes[b].position) <= jumpRange)
                && (Adjacent(connections, i, b) ==> Weight(connections, i, b) == dist(nodes[i].position, nodes[b].position))
    {
      ghost var systems := nodes;
      for j := i + 1 to |nodes|
        invariant Valid() && jumpRange == old(jumpRange) && SameSystems(systems, nodes)
        invariant forall a, b :: 0 <= a < b < |nodes| && a != i ==>
                    (Adjacent(connections, a, b) <==> Adjacent(old(connections), a, b))
                    && Weight(connections, a, b) == Weight(old(connections), a, b)
        invariant forall b :: i < b < |nodes| ==>
                    (Adjacent(connections, i, b) <==> b < j && dist(systems[i].position, systems[b].position) <= jumpRange)
                    && (Adjacent(connections, i, b) ==> Weight(connections, i, b) == dist(systems[i].position, systems[b].position))
      {
        var d := dist(nodes[i].position, nodes[j].position);
        if d <= jumpRange {
          ghost var before := connections;
          Connect(i, j, d);
          StoreKeepsOthers(before, |nodes|, i, j, Connection(i, j, d));
        }
      }
    }

    /**
     * Dijkstra's algorithm from `sourceNodeIndex`: the source gets
     * distance 0 and no predecessor; every other node keeps the sentinel
     * and -1 when it is unreachable, and otherwise gets the least total
     * weight of a walk to it and a neighbour on such a walk as predecessor.
     */
    method GetDijkstra(sourceNodeIndex: int) returns (tree: ShortestPathTree)
      requires Valid() && 0 <= sourceNodeIndex < |nodes|
      ensures tree.sourceNodeIndex == sourceNodeIndex && |tree.entries| == |nodes|
      ensures SourceSettled(tree.entries, sourceNodeIndex)
      ensures UnreachedExactlyUnreachable(connections, tree.entries, sourceNodeIndex)
      ensures UnreachedHaveNoPredecessor(tree.entries)
      ensures DistancesAreShortest(connections, tree.entries, sourceNodeIndex)
      ensures PredecessorsOnShortestPaths(connections, tree.entries, sourceNodeIndex)
      ensures exists rank :: PredecessorsRanked(tree.entries, sourceNodeIndex, rank)
    {
      var n, s := |nodes|, sourceNodeIndex;
      tree := NewShortestPathTree(s, n);
      var entries := tree.entries[s := ShortestPath(Dist(0.0), -1)];
      var visited: set<int> := {};
      ghost var paths: seq<seq<int>> := seq(n, v => [s]);
      ghost var rank: seq<nat> := seq(n, v => 0);
      ghost var round: nat := 0;
      var u := NextToVisit(entries, visited);
      while u != -1
        invariant |entries| == n
        invariant Progress(connections, entries, paths, visited, s, rank, round)
        invariant u == -1 ==> NoneToVisit(entries, visited)
        invariant u != -1 ==> IsNextToVisit(entries, visited, u)
        decreases Indices(n) - visited
      {
        AdjacencyListComplete(u);
        entries, visited, paths, rank := Visit(connections, nodes[u].connections, u, s, entries, visited, paths, rank, round);
        round := round + 1;
        u := NextToVisit(entries, visited);
      }
      FinishedTree(connections, entries, paths, visited, s, rank, round);
      tree := tree.(entries := entries);
    }

    /** The adjacency list of node `u` holds the key of every connection
        from `u`. */
    lemma AdjacencyListComplete(u: int)
      requires Valid() && 0 <= u < |nodes|
      ensures Keyed(connections, |nodes|) && NonNegative(connections)
      ensures forall k :: k in nodes[u].connections ==> k in connections && connections[k].ContainsNodeIndex(u)
      ensures forall b :: Adjacent(connections, u, b) ==> PairId(u, b) in nodes[u].connections
    {
      forall b | Adjacent(connections, u, b) ensures PairId(u, b) in nodes[u].connections {
        AdjacentEndpoints(connections, |nodes|, u, b);
      }
    }

    /** Index of the first node called `name`, or -1 when there is none. */
    function GetNodeIndexByName(name: string): (r: int)
      reads this
      ensures -1 <= r < |nodes|
      ensures r == -1 <==> forall i :: 0 <= i < |nodes| ==> nodes[i].name != name
      ensures r != -1 ==> nodes[r].name == name
      ensures r != -1 ==> forall i :: 0 <= i < r ==> nodes[i].name != name
    {
      FirstIndexOf(NodeNames(nodes), name)
    }

    /**
     * Stores the connection (a, b, weight) under the key of the pair,
     * replacing any connection already stored for it, and records the key
     * in both adjacency lists when it is new.
     */
    method Connect(a: int, b: int, weight: real)
      requires Valid()
      requires 0 <= a < |nodes| && 0 <= b < |nodes| && a != b && weight >= 0.0
      modifies this
      ensures Valid()
      ensures jumpRange == old(jumpRange) && SameSystems(old(nodes), nodes)
      ensures connections == old(connections)[PairId(a, b) := Connection(a, b, weight)]
    {
      var k := PairId(a, b);
      if k in connections {
        PairIdInjective(a, b, connections[k].nodeIndex0, connections[k].nodeIndex1);
      } else {
        nodes := nodes[a := nodes[a].(connections := nodes[a].connections + [k])];
        nodes := nodes[b := nodes[b].(connections := nodes[b].connections + [k])];
      }
      connections := connections[k := Connection(a, b, weight)];
    }

    /**
     * Adds (or replaces) a connection between the systems called `nameA`
     * and `nameB`, whatever their distance.
     */
    method AddConnection(nameA: string, nameB: string, weight: real)
      requires Valid()
      requires GetNodeIndexByName(nameA) != -1 && GetNodeIndexByName(nameB) != -1
      requires GetNodeIndexByName(nameA) != GetNodeIndexByName(nameB)
      requires weight >= 0.0
      modifies this
      ensures Valid()
      ensures jumpRange == old(jumpRange) && SameSystems(old(nodes), nodes)
      ensures var a, b := old(GetNodeIndexByName(nameA)), old(GetNodeIndexByName(nameB));
              connections == old(connections)[PairId(a, b) := Connection(a, b, weight)]
    {
      var a := GetNodeIndexByName(nameA);
      var b := GetNodeIndexByName(nameB);
      Connect(a, b, weight);
    }

    /** Whether a connection between the two nodes is stored: direct
        adjacency, in either direction. */
    function AreNeighbors(nodeIndex0: int, nodeIndex1: int): (r: bool)
      reads this
      ensures Valid() ==>
                (r <==> exists k :: k in connections && connections[k].Joins(nodeIndex0, nodeIndex1))
      ensures Valid() && r ==>
                0 <= nodeIndex0 < |nodes| && 0 <= nodeIndex1 < |nodes| && nodeIndex0 != nodeIndex1
    {
      var k := PairId(nodeIndex0, nodeIndex1);
      if k in connections then
        AdjacentEndpointsIfValid(nodeIndex0, nodeIndex1);
        true
      else
        NotAdjacentIfValid(nodeIndex0, nodeIndex1);
        false
    }

    lemma AdjacentEndpointsIfValid(a: int, b: int)
      requires PairId(a, b) in connections
      ensures Valid() ==> connections[PairId(a, b)].Joins(a, b) && 0 <= a < |nodes| && 0 <= b < |nodes| && a != b
    {
      if Valid() {
        AdjacentEndpoints(connections, |nodes|, a, b);
      }
    }

    lemma NotAdjacentIfValid(a: int, b: int)
      requires PairId(a, b) !in connections
      ensures Valid() ==> forall k :: k in connections ==> !connections[k].Joins(a, b)
    {
      if Valid() {
        forall k | k in connections ensures !connections[k].Joins(a, b) {
          PairIdSymmetric(a, b);
        }
      }
    }

    /** The cheapest route between two named systems, or nothing when a
        name is unknown or the destination cannot be reached. */
    method GetJumpPath(start: string, destination: string) returns (path: Option<JumpPath>)
      requires Valid()
      ensures var a, b := GetNodeIndexByName(start), GetNodeIndexByName(destination);
              path.None? <==> a == -1 || b == -1 || !Reachable(connections, a, b)
      ensures path.Some? ==>
                var a, b, stops := GetNodeIndexByName(start), GetNodeIndexByName(destination), path.value.stops;
                && IsPathFromTo(connections, stops, a, b)
                && (forall k :: 0 <= k < |stops| - 1 ==> AreNeighbors(stops[k], stops[k + 1]))
                && forall p :: IsPathFromTo(connections, p, a, b) ==> Cost(connections, stops) <= Cost(connections, p)
    {
      var a, b := GetNodeIndexByName(start), GetNodeIndexByName(destination);
      if a == -1 || b == -1 {
        return None;
      }
      var tree := GetDijkstra(a);
      if tree.entries[b].shortestDistance == NoDistance {
        return None;
      }
      ghost var rank :| PredecessorsRanked(tree.entries, a, rank);
      var stops := TracePredecessors(connections, tree.entries, a, b, rank);
      path := Some(JumpPath(stops));
    }

    /** Every node index, nearest first, by the distance `dist` of its
        position from that of the named system. */
    method GetClosest(system: string, dist: (Vec3, Vec3) -> real) returns (closest: seq<int>)
      requires GetNodeIndexByName(system) != -1
      ensures |closest| == |nodes|
      ensures forall v :: v in closest <==> 0 <= v < |nodes|
      ensures forall x :: 0 <= x < |closest| ==> 0 <= closest[x] < |nodes|
      ensures forall x, y :: 0 <= x < y < |closest| ==> closest[x] != closest[y]
      ensures var origin := nodes[GetNodeIndexByName(system)].position;
              forall x, y :: 0 <= x < y < |closest| ==>
                dist(origin, nodes[closest[x]].position) <= dist(origin, nodes[closest[y]].position)
    {
      var all := nodes;
      var origin := all[GetNodeIndexByName(system)].position;
      var keys := seq(|all|, i requires 0 <= i < |all| => dist(origin, all[i].position));
      closest := SortByKey(keys);
      assert forall x :: 0 <= x < |closest| ==> keys[closest[x]] == dist(origin, all[closest[x]].position);
    }

    /** Adjacency does not depend on the order of the two nodes. */
    lemma AreNeighborsSymmetric(nodeIndex0: int, nodeIndex1: int)
      ensures AreNeighbors(nodeIndex0, nodeIndex1) == AreNeighbors(nodeIndex1, nodeIndex0)
    {
    }

    /** The weight of the connection between two neighbours, and the
        second of them as the other end. */
    function GetNeighborInfo(nodeIndex0: int, nodeIndex1: int): (info: NeighborInfo)
      reads this
      requires Valid() && AreNeighbors(nodeIndex0, nodeIndex1)
      ensures info.otherIndex == nodeIndex1
      ensures info.distance >= 0.0
      ensures exists k :: k in connections && connections[k].Joins(nodeIndex0, nodeIndex1)
                          && info.distance == connections[k].weight
      ensures info.distance == Weight(connections, nodeIndex0, nodeIndex1)
    {
      var c := connections[PairId(nodeIndex0, nodeIndex1)];
      NeighborInfo(c.weight, if c.nodeIndex0 == nodeIndex0 then c.nodeIndex1 else c.nodeIndex0)
    }
  }
}
