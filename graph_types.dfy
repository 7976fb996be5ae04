/**
 * The value types of the graph engine: vertices, weighted undirected
 * connections, Dijkstra's per-node entries and trees, neighbour
 * information and routes.
 */
module GraphTypes {
  import opened PairIds
  import opened Universe

  /** An optional result (std::optional). */
  datatype Option<T> = None | Some(value: T)

  /** A vertex: the system's name and position, and the keys of the
      connections that touch it (its adjacency list). */
  datatype Node = Node(name: string, connections: seq<Id>, position: Vec3)

  /** An undirected weighted edge between two node indices. */
  datatype Connection = Connection(nodeIndex0: int, nodeIndex1: int, weight: real) {

    /** Whether `nodeIndex` is one of the two endpoints. */
    function ContainsNodeIndex(nodeIndex: int): (r: bool)
      ensures r <==> exists other :: Joins(nodeIndex, other)
    {
      var found := nodeIndex == nodeIndex0 || nodeIndex == nodeIndex1;
      assert found ==> Joins(nodeIndex, if nodeIndex == nodeIndex0 then nodeIndex1 else nodeIndex0);
      found
    }

    /** Whether this connection links `a` and `b`, in either direction. */
    predicate Joins(a: int, b: int)
    {
      (a == nodeIndex0 && b == nodeIndex1) || (a == nodeIndex1 && b == nodeIndex0)
    }
  }

  /** The connection map of a graph. */
  type Connections = map<Id, Connection>

  /** A connection stored under key `k` in a graph of `n` nodes: both
      endpoints are node indices, they differ, `k` is the key of their
      unordered pair and the weight is not negative. */
  predicate ConnectionOk(k: Id, c: Connection, n: int)
  {
    && 0 <= c.nodeIndex0 < n && 0 <= c.nodeIndex1 < n
    && c.nodeIndex0 != c.nodeIndex1
    && k == PairId(c.nodeIndex0, c.nodeIndex1)
    && c.weight >= 0.0
  }

  /** Every stored connection is well keyed for `n` nodes. */
  ghost predicate Keyed(conns: Connections, n: int)
  {
    forall k :: k in conns ==> ConnectionOk(k, conns[k], n)
  }

  /** The invariant of a graph's storage: every stored connection is well
      keyed, and each node's adjacency list holds exactly the keys of the
      stored connections that touch it. */
  ghost predicate WellFormed(nodes: seq<Node>, conns: Connections)
  {
    && Keyed(conns, |nodes|)
    && (forall i, k :: 0 <= i < |nodes| ==>
          (k in nodes[i].connections <==> k in conns && conns[k].ContainsNodeIndex(i)))
  }

  /** The node list with its names and positions unchanged; adjacency
      lists may differ. */
  ghost predicate SameSystems(before: seq<Node>, after: seq<Node>)
  {
    && |after| == |before|
    && forall i :: 0 <= i < |before| ==>
         after[i].name == before[i].name && after[i].position == before[i].position
  }

  /** The key of a stored connection names exactly its endpoints. */
  lemma ContainsNodeIndexMatchesKey(k: Id, c: Connection, n: int, i: int)
    requires ConnectionOk(k, c, n)
    ensures c.ContainsNodeIndex(i) <==> i == k.low || i == k.high
    ensures c.Joins(k.low, k.high)
  {
  }

  /** Distance of a Dijkstra entry: the "not reached" sentinel, or a
      finite total weight. */
  datatype Distance = NoDistance | Dist(value: real)

  /** Dijkstra's entry for one node: best known distance from the source
      and the node before it on that best path (-1 for none). */
  datatype ShortestPath = ShortestPath(shortestDistance: Distance, previousVertexIndex: int)

  /** A fresh entry: not reached, no predecessor. */
  const FreshEntry := ShortestPath(NoDistance, -1)

  /** The result of Dijkstra's algorithm from one source. */
  datatype ShortestPathTree = ShortestPathTree(sourceNodeIndex: int, entries: seq<ShortestPath>) {

    /** The recorded distance of node `nodeIndex` from the source. */
    function GetDistanceFromSource(nodeIndex: int): Distance
      requires 0 <= nodeIndex < |entries|
    {
      entries[nodeIndex].shortestDistance
    }
  }

  /** A tree for `sourceNodeIndex` over `nodeCount` nodes, every entry
      fresh. */
  function NewShortestPathTree(sourceNodeIndex: int, nodeCount: nat): (t: ShortestPathTree)
    ensures t.sourceNodeIndex == sourceNodeIndex
    ensures |t.entries| == nodeCount
    ensures forall v :: 0 <= v < nodeCount ==>
              t.entries[v].shortestDistance == NoDistance && t.entries[v].previousVertexIndex == -1
  {
    ShortestPathTree(sourceNodeIndex, seq(nodeCount, _ => FreshEntry))
  }

  /** The answer of a neighbour query: the connecting weight and the index
      at the other end. */
  datatype NeighborInfo = NeighborInfo(distance: real, otherIndex: int)

  /** A route: the node indices visited, from start to destination. */
  datatype JumpPath = JumpPath(stops: seq<int>) {

    /** Whether `con` links two consecutive stops, in either direction. */
    function ContainsConnection(con: Connection): (r: bool)
      ensures r <==> exists k :: 0 <= k < |stops| - 1 && con.Joins(stops[k], stops[k + 1])
    {
      StopsContain(stops, con)
    }
  }

  /** Whether `con` links two consecutive entries of `stops`. */
  function StopsContain(stops: seq<int>, con: Connection): (r: bool)
    ensures r <==> exists k :: 0 <= k < |stops| - 1 && con.Joins(stops[k], stops[k + 1])
  {
    if |stops| < 2 then false
    else if con.Joins(stops[0], stops[1]) then true
    else
      var rest := StopsContain(stops[1..], con);
      assert rest ==> exists k :: 0 <= k < |stops| - 1 && con.Joins(stops[k], stops[k + 1]) by {
        if rest {
          var j :| 0 <= j < |stops| - 2 && con.Joins(stops[1..][j], stops[1..][j + 1]);
          assert con.Joins(stops[j + 1], stops[j + 2]);
        }
      }
      rest
  }
}
