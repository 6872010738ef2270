/**
 * Edges and edge lookups.
 *
 * An `Edge` is a pair of vertex indices. An `EdgeLookup` pairs the welded
 * ("common") edge with the per-face ("local") edge it was made from.
 *
 * The equality of `Edge` used by `EdgeLookup.Equals` and by a dictionary
 * keyed on edges is not part of this model; it is taken to be equality of
 * unordered pairs, and `Key` is the canonical representative under it.
 */
module Edges {
  datatype Edge = Edge(x: int, y: int)

  datatype EdgeLookup = EdgeLookup(common: Edge, local: Edge)

  /** `Edge.Contains`: one of the two endpoints is `i`. */
  predicate Contains(e: Edge, i: int) {
    e.x == i || e.y == i
  }

  /** Assumed edge equality: the same two endpoints, in either order. */
  predicate SameEdge(a: Edge, b: Edge) {
    (a.x == b.x && a.y == b.y) || (a.x == b.y && a.y == b.x)
  }

  /** `EdgeLookup.Equals`: decided on the common edge alone. */
  predicate SameLookup(a: EdgeLookup, b: EdgeLookup) {
    SameEdge(a.common, b.common)
  }

  /** Canonical form of an edge under `SameEdge`: smaller endpoint first. */
  function Key(e: Edge): (k: Edge)
    ensures k.x <= k.y
    ensures SameEdge(k, e)
  {
    if e.x <= e.y then e else Edge(e.y, e.x)
  }

  /** A dictionary keyed on `Key` merges exactly the edges `SameEdge` equates. */
  lemma KeyDecidesSameEdge(a: Edge, b: Edge)
    ensures SameEdge(a, b) <==> Key(a) == Key(b)
  {
  }
}
