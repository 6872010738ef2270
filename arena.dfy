/**
 * What the arena returned by `GetWingedEdges` guarantees, stated on `Built`:
 * every link stays in the arena, every face is a closed `next`/`previous`
 * ring whose `Count` is the face's edge count, `next` and `previous` undo
 * each other, `opposite` joins nodes whose common edges agree, and the
 * arena is determined by the faces and the weld lookup.
 */
module Arena {
  import opened Wrappers
  import opened Edges
  import opened EdgeSort
  import opened Wings
  import opened Builder

  /** Face `f` of a built arena is placed at its node range. */
  lemma FaceOfBuilt(faces: seq<seq<Edge>>, lookup: map<int, int>, nodes: seq<Wing>, f: nat)
    requires Built(faces, lookup, nodes) && f < |faces|
    ensures FacePlaced(faces[f], lookup, f, nodes, Offset(faces, f), |faces[f]|)
  {
  }

  /** The node for edge `j` of a placed face: its lookup pair, its face, and its two ring neighbours. */
  lemma PlacedNode(edges: seq<Edge>, lookup: map<int, int>, f: nat, nodes: seq<Wing>, start: nat, j: nat)
    requires FacePlaced(edges, lookup, f, nodes, start, |edges|) && j < |edges|
    ensures start + |edges| <= |nodes|
    ensures edges[j].x in lookup && edges[j].y in lookup
    ensures var w := nodes[start + j];
            w.edge == LookupOf(lookup, edges[j]) && w.face == f &&
            w.next == Some(if j + 1 < |edges| then start + j + 1 else start) &&
            w.previous == Some(if j > 0 then start + j - 1 else start + |edges| - 1)
  {
  }

  /** Node `i` is edge `j` of face `f`, for the face whose node range holds `i`. */
  lemma Locate(faces: seq<seq<Edge>>, lookup: map<int, int>, nodes: seq<Wing>, i: nat) returns (f: nat, j: nat)
    requires Built(faces, lookup, nodes) && i < |nodes|
    ensures f < |faces| && j < |faces[f]| && i == Offset(faces, f) + j
    ensures FacePlaced(faces[f], lookup, f, nodes, Offset(faces, f), |faces[f]|)
  {
    f := FaceOf(faces, |faces|, i);
    j := i - Offset(faces, f);
    FaceOfBuilt(faces, lookup, nodes, f);
  }

  /** Node `i` belongs to the face whose node range holds `i`. */
  lemma NodeFace(faces: seq<seq<Edge>>, lookup: map<int, int>, nodes: seq<Wing>, i: nat)
    requires Built(faces, lookup, nodes) && i < |nodes|
    ensures nodes[i].face < |faces|
    ensures Offset(faces, nodes[i].face) <= i < Offset(faces, nodes[i].face) + |faces[nodes[i].face]|
  {
    var f, j := Locate(faces, lookup, nodes, i);
    PlacedNode(faces[f], lookup, f, nodes, Offset(faces, f), j);
  }

  /** No link of the arena is dangling: `next`, `previous` and `opposite` all name nodes. */
  lemma BuiltClosed(faces: seq<seq<Edge>>, lookup: map<int, int>, nodes: seq<Wing>)
    requires Built(faces, lookup, nodes)
    ensures Closed(nodes)
  {
    forall i | 0 <= i < |nodes|
      ensures InArena(nodes, nodes[i].next) && InArena(nodes, nodes[i].previous) && InArena(nodes, nodes[i].opposite)
    {
      var f, j := Locate(faces, lookup, nodes, i);
      PlacedNode(faces[f], lookup, f, nodes, Offset(faces, f), j);
      OppositeIs(nodes, i);
    }
  }

  /** `next` and `previous` are never null, stay within the face, and undo each other. */
  lemma BuiltLinksInverse(faces: seq<seq<Edge>>, lookup: map<int, int>, nodes: seq<Wing>, i: nat)
    requires Built(faces, lookup, nodes) && i < |nodes|
    ensures nodes[i].next.Some? && nodes[i].previous.Some?
    ensures nodes[i].next.value < |nodes| && nodes[i].previous.value < |nodes|
    ensures nodes[nodes[i].next.value].previous == Some(i)
    ensures nodes[nodes[i].previous.value].next == Some(i)
    ensures nodes[nodes[i].next.value].face == nodes[i].face == nodes[nodes[i].previous.value].face
  {
    var f, j := Locate(faces, lookup, nodes, i);
    RingLinksInverse(faces[f], lookup, f, nodes, Offset(faces, f), j);
  }

  /** The inverse links within one placed face. */
  lemma RingLinksInverse(edges: seq<Edge>, lookup: map<int, int>, f: nat, nodes: seq<Wing>, start: nat, j: nat)
    requires FacePlaced(edges, lookup, f, nodes, start, |edges|) && j < |edges|
    ensures start + |edges| <= |nodes|
    ensures nodes[start + j].face == f
    ensures nodes[start + j].next.Some? && nodes[start + j].previous.Some?
    ensures nodes[start + j].next.value < |nodes| && nodes[start + j].previous.value < |nodes|
    ensures nodes[nodes[start + j].next.value].previous == Some(start + j)
    ensures nodes[nodes[start + j].previous.value].next == Some(start + j)
    ensures nodes[nodes[start + j].next.value].face == f == nodes[nodes[start + j].previous.value].face
  {
    var k := |edges|;
    PlacedNode(edges, lookup, f, nodes, start, j);
    PlacedNode(edges, lookup, f, nodes, start, if j + 1 < k then j + 1 else 0);
    PlacedNode(edges, lookup, f, nodes, start, if j > 0 then j - 1 else k - 1);
  }

  /** The position `x` steps along a ring of `k` nodes, for `x < 2 * k`. */
  function Wrap(x: nat, k: nat): nat {
    if x < k then x else x - k
  }

  /** Walking `t` steps of `next` from edge `j` of a placed face reaches edge `j + t`, modulo the face's size. */
  lemma {:induction false} RingWalk(edges: seq<Edge>, lookup: map<int, int>, f: nat, nodes: seq<Wing>, start: nat, j: nat, t: nat)
    requires Closed(nodes)
    requires FacePlaced(edges, lookup, f, nodes, start, |edges|)
    requires j < |edges| && t <= |edges|
    ensures start + j < |nodes|
    ensures Iter(nodes, start + j, t) == Some(start + Wrap(j + t, |edges|))
    decreases t
  {
    PlacedNode(edges, lookup, f, nodes, start, j);
    if t > 0 {
      RingWalk(edges, lookup, f, nodes, start, j, t - 1);
      PlacedNode(edges, lookup, f, nodes, start, Wrap(j + t - 1, |edges|));
    }
  }

  /**
   * Every node lies on its face's ring: the walk of `Count` from it ends,
   * and ends first after exactly as many steps as the face has edges.
   */
  lemma BuiltRing(faces: seq<seq<Edge>>, lookup: map<int, int>, nodes: seq<Wing>, f: nat, j: nat)
    requires Built(faces, lookup, nodes)
    requires f < |faces| && j < |faces[f]|
    ensures Closed(nodes) && Offset(faces, f) + j < |nodes|
    ensures LoopEnds(nodes, Offset(faces, f) + j)
    ensures IsLoopOfLength(nodes, Offset(faces, f) + j, |faces[f]|)
  {
    BuiltClosed(faces, lookup, nodes);
    FaceOfBuilt(faces, lookup, nodes, f);
    RingLength(faces[f], lookup, f, nodes, Offset(faces, f), j);
  }

  /** The ring of one placed face has the face's length from each of its nodes. */
  lemma RingLength(edges: seq<Edge>, lookup: map<int, int>, f: nat, nodes: seq<Wing>, start: nat, j: nat)
    requires Closed(nodes)
    requires FacePlaced(edges, lookup, f, nodes, start, |edges|) && j < |edges|
    ensures start + j < |nodes|
    ensures LoopEnds(nodes, start + j)
    ensures IsLoopOfLength(nodes, start + j, |edges|)
  {
    var k := |edges|;
    var w := start + j;
    RingWalk(edges, lookup, f, nodes, start, j, k);
    assert Stops(nodes, w, k);
    forall t | 1 <= t < k ensures !Stops(nodes, w, t) {
      RingWalk(edges, lookup, f, nodes, start, j, t);
    }
  }

  /**
   * An opposite is another node with the same common edge, up to the order
   * of its endpoints; a node has none exactly when no other node shares its
   * common edge.
   */
  lemma BuiltOpposite(faces: seq<seq<Edge>>, lookup: map<int, int>, nodes: seq<Wing>, i: nat)
    requires Built(faces, lookup, nodes) && i < |nodes|
    ensures nodes[i].opposite.Some? ==>
              nodes[i].opposite.value < |nodes| && nodes[i].opposite.value != i &&
              SameEdge(nodes[nodes[i].opposite.value].edge.common, nodes[i].edge.common)
    ensures nodes[i].opposite.None? <==>
              forall j :: 0 <= j < |nodes| && j != i ==> !SameEdge(nodes[j].edge.common, nodes[i].edge.common)
  {
    var keys := KeysOf(nodes);
    assert nodes[i].opposite == OppositeOf(keys, i);
    forall j | 0 <= j < |nodes| ensures SameEdge(nodes[j].edge.common, nodes[i].edge.common) <==> keys[j] == keys[i] {
      KeyDecidesSameEdge(nodes[j].edge.common, nodes[i].edge.common);
    }
  }

  /** Node `i`'s opposite is `o` exactly when `OppositeOf` says so, with keys read off the common edges. */
  lemma OppositeIs(nodes: seq<Wing>, i: nat)
    requires OppositesSet(nodes) && i < |nodes|
    ensures nodes[i].opposite == OppositeOf(KeysOf(nodes), i)
  {
  }

  /** A node that found its opposite later in the arena is the first of its edge, and the later node points back. */
  lemma OppositeForward(faces: seq<seq<Edge>>, lookup: map<int, int>, nodes: seq<Wing>, i: nat, o: nat)
    requires Built(faces, lookup, nodes) && i < |nodes|
    requires nodes[i].opposite == Some(o) && i < o
    ensures o < |nodes| && nodes[o].opposite == Some(i)
  {
    var keys := KeysOf(nodes);
    OppositeIs(nodes, i);
    OppositeIs(nodes, o);
    assert FirstOf(keys, keys[i]) == i;
  }

  /**
   * A node whose opposite lies earlier points at the first node with its
   * edge; that first node points back exactly when no later node shares the
   * edge, since the dictionary entry is never removed and each later
   * occurrence takes the first node's link over.
   */
  lemma OppositeBackward(faces: seq<seq<Edge>>, lookup: map<int, int>, nodes: seq<Wing>, i: nat, o: nat)
    requires Built(faces, lookup, nodes) && i < |nodes|
    requires nodes[i].opposite == Some(o) && o < i
    ensures forall j :: 0 <= j < o ==> !SameEdge(nodes[j].edge.common, nodes[i].edge.common)
    ensures nodes[o].opposite == Some(i) <==>
              forall j :: i < j < |nodes| ==> !SameEdge(nodes[j].edge.common, nodes[i].edge.common)
  {
    var keys := KeysOf(nodes);
    OppositeIs(nodes, i);
    OppositeIs(nodes, o);
    assert FirstOf(keys, keys[i]) == o;
    forall j | 0 <= j < |nodes| ensures SameEdge(nodes[j].edge.common, nodes[i].edge.common) <==> keys[j] == keys[i] {
      KeyDecidesSameEdge(nodes[j].edge.common, nodes[i].edge.common);
    }
  }

  /** Where at most two nodes share a common edge, `opposite` is symmetric. */
  lemma OppositeSymmetric(faces: seq<seq<Edge>>, lookup: map<int, int>, nodes: seq<Wing>, i: nat, o: nat)
    requires Built(faces, lookup, nodes) && i < |nodes|
    requires nodes[i].opposite == Some(o)
    requires forall j :: 0 <= j < |nodes| && SameEdge(nodes[j].edge.common, nodes[i].edge.common) ==> j == i || j == o
    ensures o < |nodes| && nodes[o].opposite == Some(i)
  {
    BuiltOpposite(faces, lookup, nodes, i);
    if i < o {
      OppositeForward(faces, lookup, nodes, i, o);
    } else {
      OppositeBackward(faces, lookup, nodes, i, o);
    }
  }

  /**
   * Three nodes `a < b < c` sharing a common edge, and no other: the first
   * ends up linked with the third, while the second still points at the
   * first, so `opposite` is not symmetric there.
   */
  lemma OppositeOfThree(faces: seq<seq<Edge>>, lookup: map<int, int>, nodes: seq<Wing>, a: nat, b: nat, c: nat)
    requires Built(faces, lookup, nodes)
    requires a < b < c < |nodes|
    requires Key(nodes[b].edge.common) == Key(nodes[a].edge.common) == Key(nodes[c].edge.common)
    requires forall j :: 0 <= j < |nodes| && Key(nodes[j].edge.common) == Key(nodes[a].edge.common) ==> j == a || j == b || j == c
    ensures nodes[a].opposite == Some(c)
    ensures nodes[b].opposite == Some(a)
    ensures nodes[c].opposite == Some(a)
  {
    var keys := KeysOf(nodes);
    OppositeIs(nodes, a);
    OppositeIs(nodes, b);
    OppositeIs(nodes, c);
    assert FirstOf(keys, keys[a]) == a;
    assert LastOf(keys, keys[a]) == c;
  }

  /** Two built arenas agree on every node's edge, face and ring links. */
  lemma SameNode(faces: seq<seq<Edge>>, lookup: map<int, int>, nodes: seq<Wing>, nodes': seq<Wing>, i: nat)
    requires Built(faces, lookup, nodes) && Built(faces, lookup, nodes') && i < |nodes|
    ensures i < |nodes'| && SameLinks(nodes[i], nodes'[i])
  {
    var f, j := Locate(faces, lookup, nodes, i);
    FaceOfBuilt(faces, lookup, nodes', f);
    PlacedNode(faces[f], lookup, f, nodes, Offset(faces, f), j);
    PlacedNode(faces[f], lookup, f, nodes', Offset(faces, f), j);
  }

  /** The arena is determined by the faces and the weld lookup. */
  lemma BuiltUnique(faces: seq<seq<Edge>>, lookup: map<int, int>, nodes: seq<Wing>, nodes': seq<Wing>)
    requires Built(faces, lookup, nodes) && Built(faces, lookup, nodes')
    ensures nodes == nodes'
  {
    forall i | 0 <= i < |nodes| ensures SameLinks(nodes[i], nodes'[i]) {
      SameNode(faces, lookup, nodes, nodes', i);
    }
    SameLinksSameKeys(nodes, nodes');
    forall i | 0 <= i < |nodes| ensures nodes[i] == nodes'[i] {
      OppositeIs(nodes, i);
      OppositeIs(nodes', i);
    }
  }

  /** Sorting does not change a face's edge count, so the node ranges are those of the unsorted faces. */
  lemma {:induction false} OffsetSorted(faces: seq<seq<Edge>>, f: nat)
    requires f <= |faces|
    ensures Offset(SortedFaces(faces), f) == Offset(faces, f)
  {
    if f > 0 {
      OffsetSorted(faces, f - 1);
    }
  }

  /** Without `oneWingPerFace` a face lists all its nodes, in order. */
  lemma {:induction false} FaceWingsAll(start: nat, n: nat)
    ensures |FaceWings(start, n, false)| == n
    ensures forall j :: 0 <= j < n ==> FaceWings(start, n, false)[j] == start + j
  {
    if n > 0 {
      FaceWingsAll(start, n - 1);
    }
  }

  /** With `oneWingPerFace` a face lists its first node only, and an empty face nothing. */
  lemma {:induction false} FaceWingsOne(start: nat, n: nat)
    ensures FaceWings(start, n, true) == if n == 0 then [] else [start]
  {
    if n > 1 {
      FaceWingsOne(start, n - 1);
    }
  }

  /** Without `oneWingPerFace` the wings listed are the whole arena, in order. */
  lemma {:induction false} ListedAll(faces: seq<seq<Edge>>, upTo: nat)
    requires upTo <= |faces|
    ensures |Listed(faces, upTo, false)| == Offset(faces, upTo)
    ensures forall i :: 0 <= i < Offset(faces, upTo) ==> Listed(faces, upTo, false)[i] == i
  {
    if upTo > 0 {
      ListedAll(faces, upTo - 1);
      FaceWingsAll(Offset(faces, upTo - 1), |faces[upTo - 1]|);
    }
  }

  /** With `oneWingPerFace` the wings listed are the first nodes of the non-empty faces. */
  lemma {:induction false} ListedOne(faces: seq<seq<Edge>>, upTo: nat)
    requires upTo <= |faces|
    ensures forall i :: i in Listed(faces, upTo, true) <==>
              exists f :: 0 <= f < upTo && |faces[f]| > 0 && i == Offset(faces, f)
  {
    forall i
      ensures i in Listed(faces, upTo, true) <==> exists f :: 0 <= f < upTo && |faces[f]| > 0 && i == Offset(faces, f)
    {
      if i in Listed(faces, upTo, true) {
        var f := ListedOneFace(faces, upTo, i);
      }
      if exists f :: 0 <= f < upTo && |faces[f]| > 0 && i == Offset(faces, f) {
        var f :| 0 <= f < upTo && |faces[f]| > 0 && i == Offset(faces, f);
        ListedOneHas(faces, upTo, f);
      }
    }
  }

  /** With `oneWingPerFace` a listed wing is the first node of some non-empty face `f`. */
  lemma {:induction false} ListedOneFace(faces: seq<seq<Edge>>, upTo: nat, i: nat) returns (f: nat)
    requires upTo <= |faces| && i in Listed(faces, upTo, true)
    ensures f < upTo && |faces[f]| > 0 && i == Offset(faces, f)
  {
    var before, start, n := Listed(faces, upTo - 1, true), Offset(faces, upTo - 1), |faces[upTo - 1]|;
    FaceWingsOne(start, n);
    assert Listed(faces, upTo, true) == before + if n == 0 then [] else [start];
    if i in before {
      f := ListedOneFace(faces, upTo - 1, i);
    } else {
      f := upTo - 1;
    }
  }

  /** With `oneWingPerFace` every listed wing lies before the nodes of the faces not yet listed. */
  lemma {:induction false} ListedOneBelow(faces: seq<seq<Edge>>, upTo: nat, w: nat)
    requires upTo <= |faces| && w in Listed(faces, upTo, true)
    ensures w < Offset(faces, upTo)
  {
    var f := ListedOneFace(faces, upTo, w);
    assert Offset(faces, f + 1) == Offset(faces, f) + |faces[f]|;
    OffsetMonotone(faces, f + 1, upTo);
  }

  /** With `oneWingPerFace` the first node of every non-empty face `f` is listed. */
  lemma {:induction false} ListedOneHas(faces: seq<seq<Edge>>, upTo: nat, f: nat)
    requires upTo <= |faces| && f < upTo && |faces[f]| > 0
    ensures Offset(faces, f) in Listed(faces, upTo, true)
  {
    var before, start, n := Listed(faces, upTo - 1, true), Offset(faces, upTo - 1), |faces[upTo - 1]|;
    FaceWingsOne(start, n);
    assert Listed(faces, upTo, true) == before + if n == 0 then [] else [start];
    if f < upTo - 1 {
      ListedOneHas(faces, upTo - 1, f);
    }
  }

  /** With `oneWingPerFace` the wings listed are in increasing order, so each is listed once. */
  lemma {:induction false} ListedOneInOrder(faces: seq<seq<Edge>>, upTo: nat)
    requires upTo <= |faces|
    ensures forall i, j :: 0 <= i < j < |Listed(faces, upTo, true)| ==>
              Listed(faces, upTo, true)[i] < Listed(faces, upTo, true)[j]
  {
    if upTo > 0 {
      ListedOneInOrder(faces, upTo - 1);
      FaceWingsOne(Offset(faces, upTo - 1), |faces[upTo - 1]|);
      var before := Listed(faces, upTo - 1, true);
      forall i | 0 <= i < |before| ensures before[i] < Offset(faces, upTo - 1) {
        assert before[i] in before;
        ListedOneBelow(faces, upTo - 1, before[i]);
      }
      var tail := if |faces[upTo - 1]| == 0 then [] else [Offset(faces, upTo - 1)];
      assert Listed(faces, upTo, true) == before + tail;
      IncreasingAppend(before, tail, Offset(faces, upTo - 1));
    }
  }

  /** A strictly increasing list stays so when a bound above all its entries is appended. */
  lemma IncreasingAppend(before: seq<nat>, tail: seq<nat>, bound: nat)
    requires forall i, j :: 0 <= i < j < |before| ==> before[i] < before[j]
    requires forall i :: 0 <= i < |before| ==> before[i] < bound
    requires tail == [] || tail == [bound]
    ensures forall i, j :: 0 <= i < j < |before + tail| ==> (before + tail)[i] < (before + tail)[j]
  {
    var listed := before + tail;
    forall i, j | 0 <= i < j < |listed| ensures listed[i] < listed[j] {
      if j < |before| {
        assert listed[i] == before[i] && listed[j] == before[j];
      } else {
        assert listed[i] == before[i] && listed[j] == bound;
      }
    }
  }
}
