/**
 * The edge key of the graph: one identifier per UNORDERED pair of node
 * indices. The map of connections is keyed by it, so swapping the two
 * endpoints of an edge addresses the same entry.
 */
module PairIds {

  /** A key built from the smaller and the larger node index of a pair. */
  datatype Id = Id(low: int, high: int)

  /** The key of the unordered pair {a, b}. */
  function PairId(a: int, b: int): (k: Id)
    ensures k.low <= k.high
    ensures {k.low, k.high} == {a, b}
  {
    if a <= b then Id(a, b) else Id(b, a)
  }

  /** Swapping the endpoints gives the same key. */
  lemma PairIdSymmetric(a: int, b: int)
    ensures PairId(a, b) == PairId(b, a)
  {
  }

  /** Two pairs share a key exactly when they are the same unordered pair. */
  lemma PairIdInjective(a: int, b: int, c: int, d: int)
    ensures PairId(a, b) == PairId(c, d) <==> (a == c && b == d) || (a == d && b == c)
  {
  }
}
