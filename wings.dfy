/**
 * Winged-edge nodes and the queries that walk one node's links.
 *
 * Nodes live in an arena (`seq<Wing>`) and are identified by their index in
 * it; `next`, `previous` and `opposite` are indices, `None` standing for a
 * null reference, and `face` is the index of the owning face.
 */
module Wings {
  import opened Wrappers
  import opened Edges

  datatype Wing = Wing(edge: EdgeLookup, face: nat, next: Option<nat>, previous: Option<nat>, opposite: Option<nat>)

  predicate InArena(a: seq<Wing>, link: Option<nat>) {
    link.Some? ==> link.value < |a|
  }

  /** Every link of every node points into the arena. */
  predicate Closed(a: seq<Wing>) {
    forall i :: 0 <= i < |a| ==> InArena(a, a[i].next) && InArena(a, a[i].previous) && InArena(a, a[i].opposite)
  }

  /** The node reached from `w` by following `next` `k` times, `None` once a null link is met. */
  function Iter(a: seq<Wing>, w: nat, k: nat): (r: Option<nat>)
    requires Closed(a) && w < |a|
    ensures InArena(a, r)
  {
    if k == 0 then Some(w)
    else match Iter(a, w, k - 1)
      case None => None
      case Some(c) => a[c].next
  }

  /** The walk of `Count` ends after `k` steps: a null `next`, or back at `w`. */
  predicate Stops(a: seq<Wing>, w: nat, k: nat)
    requires Closed(a) && w < |a|
  {
    Iter(a, w, k).None? || Iter(a, w, k) == Some(w)
  }

  /**
   * The walk from `w` ends at all. In a closed arena it then ends within `|a|`
   * steps; on a `next` chain that loops without passing `w` again the source
   * never returns.
   */
  predicate LoopEnds(a: seq<Wing>, w: nat)
    requires Closed(a) && w < |a|
  {
    exists k :: 1 <= k <= |a| && Stops(a, w, k)
  }

  /** `k` is the first step at which the walk from `w` ends. */
  predicate IsLoopOfLength(a: seq<Wing>, w: nat, k: nat)
    requires Closed(a) && w < |a|
  {
    1 <= k && Stops(a, w, k) && forall j :: 1 <= j < k ==> !Stops(a, w, j)
  }

  /**
   * `pb_WingedEdge.Count`: walks `next` until it meets null or comes back to
   * `w`, counting the nodes visited. The count is at least 1, and it is the
   * least number of steps after which the walk ends.
   */
  method Count(a: seq<Wing>, w: nat) returns (count: nat)
    requires Closed(a) && w < |a|
    requires LoopEnds(a, w)
    ensures IsLoopOfLength(a, w, count)
  {
    ghost var bound :| 1 <= bound <= |a| && Stops(a, w, bound);
    var current := a[w].next;
    count := 1;
    while current.Some? && current.value != w
      invariant 1 <= count <= bound
      invariant current == Iter(a, w, count)
      invariant forall j :: 1 <= j < count ==> !Stops(a, w, j)
      decreases bound - count
    {
      current := a[current.value].next;
      count := count + 1;
    }
  }

  /** The walk ends first after one number of steps only, so `Count` is determined. */
  lemma LoopLengthUnique(a: seq<Wing>, w: nat, k1: nat, k2: nat)
    requires Closed(a) && w < |a|
    requires IsLoopOfLength(a, w, k1) && IsLoopOfLength(a, w, k2)
    ensures k1 == k2
  {
  }

  /**
   * `GetAdjacentEdgeWithCommonIndex`: the neighbour of `w` along its loop
   * whose common edge has endpoint `common`, trying `next` before `previous`.
   * The source dereferences `next`, and `previous` when `next` does not match,
   * so those links must be set.
   */
  function GetAdjacentEdgeWithCommonIndex(a: seq<Wing>, w: nat, common: int): (r: Option<nat>)
    requires Closed(a) && w < |a|
    requires a[w].next.Some?
    requires !Contains(a[a[w].next.value].edge.common, common) ==> a[w].previous.Some?
    ensures r.Some? ==> r == a[w].next || r == a[w].previous
    ensures r.Some? ==> r.value < |a| && Contains(a[r.value].edge.common, common)
    ensures Contains(a[a[w].next.value].edge.common, common) ==> r == a[w].next
    ensures r.None? <==> !Contains(a[a[w].next.value].edge.common, common) &&
                          !Contains(a[a[w].previous.value].edge.common, common)
  {
    if Contains(a[a[w].next.value].edge.common, common) then a[w].next
    else if Contains(a[a[w].previous.value].edge.common, common) then a[w].previous
    else None
  }
}
