/**
 * `GetWingedEdges`: builds one node per edge of every face, threads the nodes
 * of a face into a `next`/`previous` ring in the order `SortEdgesByAdjacency`
 * gives, and links nodes whose common edges agree through `opposite`.
 *
 * The specification of the result is stated on the arena: face `f` owns the
 * nodes `Offset(faces, f) .. Offset(faces, f) + |faces[f]| - 1`, and the
 * `opposite` of each node is a function of the sequence of common-edge keys.
 */
module Builder {
  import opened Wrappers
  import opened Edges
  import opened EdgeSort
  import opened Wings

  /** Every local index of every edge of `face` has an entry in the weld lookup. */
  predicate Welded(lookup: map<int, int>, face: seq<Edge>) {
    forall j :: 0 <= j < |face| ==> face[j].x in lookup && face[j].y in lookup
  }

  predicate AllWelded(lookup: map<int, int>, faces: seq<seq<Edge>>) {
    forall f :: 0 <= f < |faces| ==> Welded(lookup, faces[f])
  }

  /** Sorting only reorders a face's edges, so it does not change whether the face is welded. */
  lemma SortKeepsWelded(lookup: map<int, int>, face: seq<Edge>)
    ensures Welded(lookup, SortByAdjacency(face)) <==> Welded(lookup, face)
  {
    var sorted := SortByAdjacency(face);
    assert multiset(sorted) == multiset(face);
    if Welded(lookup, face) {
      forall j | 0 <= j < |sorted| ensures sorted[j].x in lookup && sorted[j].y in lookup {
        assert sorted[j] in multiset(face);
      }
    }
    if Welded(lookup, sorted) {
      forall j | 0 <= j < |face| ensures face[j].x in lookup && face[j].y in lookup {
        assert face[j] in multiset(sorted);
      }
    }
  }

  /** The lookup pair of a local edge: common indices from the weld lookup, the local edge as given. */
  function LookupOf(lookup: map<int, int>, e: Edge): (r: EdgeLookup)
    requires e.x in lookup && e.y in lookup
    ensures r.local == e && r.common.x == lookup[e.x] && r.common.y == lookup[e.y]
  {
    EdgeLookup(Edge(lookup[e.x], lookup[e.y]), e)
  }

  /**
   * Two local edges that are the same edge, in either endpoint order, get
   * common edges that are the same edge too, so they meet under one
   * dictionary key.
   */
  lemma LookupKeepsSameEdge(lookup: map<int, int>, e1: Edge, e2: Edge)
    requires e1.x in lookup && e1.y in lookup && e2.x in lookup && e2.y in lookup
    requires SameEdge(e1, e2)
    ensures SameEdge(LookupOf(lookup, e1).common, LookupOf(lookup, e2).common)
    ensures Key(LookupOf(lookup, e1).common) == Key(LookupOf(lookup, e2).common)
  {
    KeyDecidesSameEdge(LookupOf(lookup, e1).common, LookupOf(lookup, e2).common);
  }

  /** The index of the first node of face `f`: the faces before it own that many nodes. */
  function Offset(faces: seq<seq<Edge>>, f: nat): nat
    requires f <= |faces|
  {
    if f == 0 then 0 else Offset(faces, f - 1) + |faces[f - 1]|
  }

  lemma {:induction false} OffsetMonotone(faces: seq<seq<Edge>>, f: nat, g: nat)
    requires f <= g <= |faces|
    ensures Offset(faces, f) <= Offset(faces, g)
    decreases g
  {
    if f < g {
      OffsetMonotone(faces, f, g - 1);
    }
  }

  /** The face owning node `i` among the first `upTo` faces. */
  function FaceOf(faces: seq<seq<Edge>>, upTo: nat, i: nat): (f: nat)
    requires upTo <= |faces| && i < Offset(faces, upTo)
    ensures f < upTo && Offset(faces, f) <= i < Offset(faces, f) + |faces[f]|
  {
    if i >= Offset(faces, upTo - 1) then upTo - 1 else FaceOf(faces, upTo - 1, i)
  }

  /**
   * While face `f` is being threaded and `n` of its `k` nodes exist, the
   * `next` of node `j`: the node after it, the face's first node once the ring
   * is closed, null on the newest node before that.
   */
  function LinkNext(start: nat, j: nat, n: nat, k: nat): Option<nat> {
    if j + 1 < n then Some(start + j + 1) else if n == k then Some(start) else None
  }

  /** The `previous` of node `j`: the node before it, the face's last node once the ring is closed. */
  function LinkPrev(start: nat, j: nat, n: nat, k: nat): Option<nat> {
    if j > 0 then Some(start + j - 1) else if n == k && k > 0 then Some(start + k - 1) else None
  }

  /**
   * The first `n` nodes of a face with sorted edges `edges` sit at
   * `start ..`: each holds the lookup pair of its edge, the face index and the
   * ring links so far.
   */
  predicate FacePlaced(edges: seq<Edge>, lookup: map<int, int>, f: nat, nodes: seq<Wing>, start: nat, n: nat) {
    start + n <= |nodes| && n <= |edges| &&
    forall j :: 0 <= j < n ==>
      edges[j].x in lookup && edges[j].y in lookup &&
      nodes[start + j].edge == LookupOf(lookup, edges[j]) &&
      nodes[start + j].face == f &&
      nodes[start + j].next == LinkNext(start, j, n, |edges|) &&
      nodes[start + j].previous == LinkPrev(start, j, n, |edges|)
  }

  /** Two nodes agree on everything but `opposite`. */
  predicate SameLinks(u: Wing, v: Wing) {
    u.edge == v.edge && u.face == v.face && u.next == v.next && u.previous == v.previous
  }

  /**
   * The dictionary key of every node: its common edge, up to the order of its
   * endpoints. Two nodes share a key exactly when their common edges are the
   * same edge.
   */
  function KeysOf(nodes: seq<Wing>): (r: seq<Edge>)
    ensures |r| == |nodes| && forall i :: 0 <= i < |nodes| ==> r[i] == Key(nodes[i].edge.common)
    ensures forall i, j {:trigger SameEdge(nodes[i].edge.common, nodes[j].edge.common)} :: 0 <= i < |nodes| && 0 <= j < |nodes| ==>
              (r[i] == r[j] <==> SameEdge(nodes[i].edge.common, nodes[j].edge.common))
  {
    seq(|nodes|, i requires 0 <= i < |nodes| => Key(nodes[i].edge.common))
  }

  /** The index of the first occurrence of `k`. */
  function FirstOf(keys: seq<Edge>, k: Edge): (r: nat)
    requires k in keys
    ensures r < |keys| && keys[r] == k && forall j :: 0 <= j < r ==> keys[j] != k
  {
    var init := keys[..|keys| - 1];
    if k in init then FirstOf(init, k) else |keys| - 1
  }

  /** The index of the last occurrence of `k`. */
  function LastOf(keys: seq<Edge>, k: Edge): (r: nat)
    requires k in keys
    ensures r < |keys| && keys[r] == k && forall j :: r < j < |keys| ==> keys[j] != k
  {
    var init := keys[..|keys| - 1];
    if keys[|keys| - 1] == k then |keys| - 1 else LastOf(init, k)
  }

  /**
   * The `opposite` the builder leaves on node `i`. A later occurrence of a
   * key links to the first node registered under it; that first node keeps
   * the link to the last node that met it, or none when it is alone.
   */
  function OppositeOf(keys: seq<Edge>, i: nat): (r: Option<nat>)
    requires i < |keys|
    ensures r.Some? ==> r.value < |keys| && r.value != i && keys[r.value] == keys[i]
  {
    var first := FirstOf(keys, keys[i]);
    if first < i then Some(first)
    else
      var last := LastOf(keys, keys[i]);
      if last > i then Some(last) else None
  }

  /** The opposites dictionary after registering `keys`: each key maps to its first node. */
  function FirstIndices(keys: seq<Edge>): (m: map<Edge, nat>)
    ensures forall k :: k in m <==> k in keys
    ensures forall k :: k in m ==> m[k] == FirstOf(keys, k)
  {
    if keys == [] then map[]
    else
      var init := keys[..|keys| - 1];
      var m := FirstIndices(init);
      var k := keys[|keys| - 1];
      if k in m then m else m[k := |keys| - 1]
  }

  /** Node `i` carries the opposite link its key sequence calls for. */
  predicate OppositesSet(nodes: seq<Wing>) {
    forall i {:trigger OppositeOf(KeysOf(nodes), i)} :: 0 <= i < |nodes| ==> nodes[i].opposite == OppositeOf(KeysOf(nodes), i)
  }

  /**
   * The whole arena the builder returns for `faces`, each given by its edges
   * in the order the builder threads them: one node per edge, face by face,
   * each face threaded into a ring in that order, and the opposite links of
   * `OppositeOf`.
   */
  predicate Built(faces: seq<seq<Edge>>, lookup: map<int, int>, nodes: seq<Wing>) {
    |nodes| == Offset(faces, |faces|) &&
    (forall f {:trigger FacePlaced(faces[f], lookup, f, nodes, Offset(faces, f), |faces[f]|)} :: 0 <= f < |faces| ==>
      FacePlaced(faces[f], lookup, f, nodes, Offset(faces, f), |faces[f]|)) &&
    OppositesSet(nodes)
  }

  /**
   * The wings the inner loop lists for the first `n` nodes of the face
   * starting at node `start`: all of them, or only the first when
   * `oneWingPerFace`.
   */
  function FaceWings(start: nat, n: nat, oneWingPerFace: bool): seq<nat> {
    if n == 0 then []
    else FaceWings(start, n - 1, oneWingPerFace) + if !oneWingPerFace || n - 1 < 1 then [start + n - 1] else []
  }

  /** Listing one more node of the face after the wings of earlier faces. */
  lemma FaceWingsStep(winged0: seq<nat>, before: seq<nat>, winged: seq<nat>, start: nat, n: nat, oneWingPerFace: bool)
    requires before == winged0 + FaceWings(start, n, oneWingPerFace)
    requires winged == before + if !oneWingPerFace || n < 1 then [start + n] else []
    ensures winged == winged0 + FaceWings(start, n + 1, oneWingPerFace)
  {
  }

  /** The wings the builder returns for the first `upTo` faces. */
  function Listed(faces: seq<seq<Edge>>, upTo: nat, oneWingPerFace: bool): seq<nat>
    requires upTo <= |faces|
  {
    if upTo == 0 then []
    else Listed(faces, upTo - 1, oneWingPerFace) + FaceWings(Offset(faces, upTo - 1), |faces[upTo - 1]|, oneWingPerFace)
  }

  /** Appending a node with key `keys[|keys| - 1]` changes only the opposite of that key's first node. */
  lemma OppositeStep(keys: seq<Edge>, j: nat)
    requires j < |keys| - 1
    ensures var init := keys[..|keys| - 1];
            OppositeOf(keys, j) ==
              if keys[j] == keys[|keys| - 1] && FirstOf(init, keys[j]) == j then Some(|keys| - 1)
              else OppositeOf(init, j)
  {
    var init := keys[..|keys| - 1];
    assert init[j] == keys[j];
  }

  /** The newest node links to the first node of its key, when there is one. */
  lemma OppositeOfNewest(keys: seq<Edge>)
    requires |keys| > 0
    ensures var init := keys[..|keys| - 1];
            OppositeOf(keys, |keys| - 1) ==
              if keys[|keys| - 1] in init then Some(FirstOf(init, keys[|keys| - 1])) else None
  {
  }

  /** Nodes the builder has already threaded keep their links while later nodes are added. */
  lemma FacePlacedStable(edges: seq<Edge>, lookup: map<int, int>, f: nat, nodes: seq<Wing>, nodes': seq<Wing>, start: nat, n: nat)
    requires FacePlaced(edges, lookup, f, nodes, start, n)
    requires |nodes| <= |nodes'| && forall i :: 0 <= i < |nodes| ==> SameLinks(nodes[i], nodes'[i])
    ensures FacePlaced(edges, lookup, f, nodes', start, n)
  {
  }

  /** Nodes that agree on their edges have the same keys. */
  lemma SameLinksSameKeys(nodes: seq<Wing>, nodes': seq<Wing>)
    requires |nodes| == |nodes'| && forall i :: 0 <= i < |nodes| ==> SameLinks(nodes[i], nodes'[i])
    ensures KeysOf(nodes) == KeysOf(nodes')
  {
  }

  /**
   * The state after one opposite step, given pointwise: on a hit the
   * registered node and the newest node point at each other, on a miss the
   * newest node's opposite is cleared and it is registered.
   */
  predicate OppositeStepped(nodes0: seq<Wing>, opposites0: map<Edge, nat>, nodes: seq<Wing>, opposites: map<Edge, nat>)
    requires |nodes0| > 0
  {
    var i := |nodes0| - 1;
    var key := Key(nodes0[i].edge.common);
    |nodes| == |nodes0| &&
    if key in opposites0 then
      var opp := opposites0[key];
      opposites == opposites0 &&
      forall j :: 0 <= j < |nodes| ==>
        nodes[j] == if j == i then nodes0[j].(opposite := Some(opp)) else if j == opp then nodes0[j].(opposite := Some(i)) else nodes0[j]
    else
      opposites == opposites0[key := i] &&
      forall j :: 0 <= j < |nodes| ==> nodes[j] == if j == i then nodes0[j].(opposite := None) else nodes0[j]
  }

  /** One opposite step changes no links and keeps the dictionary equal to `FirstIndices`. */
  lemma OppositeStepKeepsLinks(nodes0: seq<Wing>, opposites0: map<Edge, nat>, nodes: seq<Wing>, opposites: map<Edge, nat>)
    requires |nodes0| > 0
    requires opposites0 == FirstIndices(KeysOf(nodes0[..|nodes0| - 1]))
    requires OppositeStepped(nodes0, opposites0, nodes, opposites)
    ensures |nodes| == |nodes0| && forall j :: 0 <= j < |nodes0| ==> SameLinks(nodes0[j], nodes[j])
    ensures opposites == FirstIndices(KeysOf(nodes))
  {
    var key := Key(nodes0[|nodes0| - 1].edge.common);
    OppositeStepSameLinks(nodes0, opposites0, nodes, opposites);
    SameLinksSameKeys(nodes0, nodes);
    assert opposites == if key in opposites0 then opposites0 else opposites0[key := |nodes0| - 1];
    OppositeStepFirstIndices(nodes0, opposites0, opposites);
  }

  lemma OppositeStepSameLinks(nodes0: seq<Wing>, opposites0: map<Edge, nat>, nodes: seq<Wing>, opposites: map<Edge, nat>)
    requires |nodes0| > 0
    requires OppositeStepped(nodes0, opposites0, nodes, opposites)
    ensures |nodes| == |nodes0| && forall j :: 0 <= j < |nodes0| ==> SameLinks(nodes0[j], nodes[j])
  {
  }

  lemma OppositeStepFirstIndices(nodes0: seq<Wing>, opposites0: map<Edge, nat>, opposites: map<Edge, nat>)
    requires |nodes0| > 0
    requires opposites0 == FirstIndices(KeysOf(nodes0[..|nodes0| - 1]))
    requires var key := Key(nodes0[|nodes0| - 1].edge.common);
             opposites == if key in opposites0 then opposites0 else opposites0[key := |nodes0| - 1]
    ensures opposites == FirstIndices(KeysOf(nodes0))
  {
    var i := |nodes0| - 1;
    var keys := KeysOf(nodes0);
    assert KeysOf(nodes0[..i]) == keys[..i];
    assert FirstIndices(keys) == if keys[i] in opposites0 then opposites0 else opposites0[keys[i] := i];
  }

  /** One opposite step keeps every node's opposite equal to `OppositeOf`. */
  lemma OppositeStepKeepsOpposites(nodes0: seq<Wing>, opposites0: map<Edge, nat>, nodes: seq<Wing>, opposites: map<Edge, nat>)
    requires |nodes0| > 0
    requires opposites0 == FirstIndices(KeysOf(nodes0[..|nodes0| - 1]))
    requires OppositesSet(nodes0[..|nodes0| - 1])
    requires OppositeStepped(nodes0, opposites0, nodes, opposites)
    ensures OppositesSet(nodes)
  {
    var i, keys := |nodes0| - 1, KeysOf(nodes0);
    var init := KeysOf(nodes0[..i]);
    assert init == keys[..i];
    OppositeStepSameLinks(nodes0, opposites0, nodes, opposites);
    SameLinksSameKeys(nodes0, nodes);
    forall j | 0 <= j < |nodes| ensures nodes[j].opposite == OppositeOf(keys, j) {
      if j == i {
        OppositeStepNewest(nodes0, opposites0, nodes, opposites);
      } else {
        assert nodes0[..i][j] == nodes0[j];
        OppositeStepAt(nodes0, opposites0, nodes, opposites, j);
        OppositeStepKeys(keys, init, opposites0, j, nodes0[j].opposite, nodes[j].opposite);
      }
    }
  }

  /** Pairing gives an old node the opposite `OppositeOf` names once the new node is in, stated on the keys. */
  lemma OppositeStepKeys(keys: seq<Edge>, init: seq<Edge>, opposites0: map<Edge, nat>, j: nat, before: Option<nat>, after: Option<nat>)
    requires j < |keys| - 1 && init == keys[..|keys| - 1]
    requires opposites0 == FirstIndices(init) && before == OppositeOf(init, j)
    requires after == if keys[|keys| - 1] in opposites0 && j == opposites0[keys[|keys| - 1]] then Some(|keys| - 1) else before
    ensures after == OppositeOf(keys, j)
  {
    var i := |keys| - 1;
    assert init[j] == keys[j];
    OppositeStep(keys, j);
    if keys[i] in opposites0 {
      assert opposites0[keys[i]] == FirstOf(init, keys[i]);
    } else {
      assert keys[j] != keys[i];
    }
  }

  /** What pairing does to the opposite of one old node. */
  lemma OppositeStepAt(nodes0: seq<Wing>, opposites0: map<Edge, nat>, nodes: seq<Wing>, opposites: map<Edge, nat>, j: nat)
    requires |nodes0| > 0 && j < |nodes0| - 1
    requires OppositeStepped(nodes0, opposites0, nodes, opposites)
    ensures var key := Key(nodes0[|nodes0| - 1].edge.common);
            nodes[j].opposite ==
              if key in opposites0 && j == opposites0[key] then Some(|nodes0| - 1) else nodes0[j].opposite
  {
    assert j < |nodes|;
  }

  /** Pairing gives the new node the opposite `OppositeOf` names. */
  lemma OppositeStepNewest(nodes0: seq<Wing>, opposites0: map<Edge, nat>, nodes: seq<Wing>, opposites: map<Edge, nat>)
    requires |nodes0| > 0
    requires opposites0 == FirstIndices(KeysOf(nodes0[..|nodes0| - 1]))
    requires OppositeStepped(nodes0, opposites0, nodes, opposites)
    ensures nodes[|nodes0| - 1].opposite == OppositeOf(KeysOf(nodes0), |nodes0| - 1)
  {
    var keys := KeysOf(nodes0);
    assert KeysOf(nodes0[..|nodes0| - 1]) == keys[..|nodes0| - 1];
    OppositeOfNewest(keys);
  }

  /**
   * The arena after the `n`-th node `w` of a `k`-edge face starting at
   * `start` has been added, given pointwise: `w` hangs after the previous
   * node, and the last node closes the ring back to the first.
   */
  predicate Threaded(nodes0: seq<Wing>, w: Wing, start: nat, n: nat, k: nat, nodes: seq<Wing>) {
    var i := |nodes0|;
    start + n == i && |nodes| == i + 1 &&
    (forall j :: 0 <= j < i ==>
      nodes[j] == nodes0[j].(next := if n > 0 && j == i - 1 then Some(i) else nodes0[j].next,
                             previous := if n == k - 1 && j == start then Some(i) else nodes0[j].previous)) &&
    nodes[i] == w.(next := if n == k - 1 then Some(start) else None,
                   previous := if n > 0 then Some(i - 1) else if n == k - 1 then Some(i) else None)
  }

  /** The link step extends the face's ring by one node. */
  lemma ThreadedPlaced(edges: seq<Edge>, lookup: map<int, int>, f: nat, nodes0: seq<Wing>, w: Wing, start: nat, n: nat, nodes: seq<Wing>)
    requires start + n == |nodes0| && n < |edges|
    requires FacePlaced(edges, lookup, f, nodes0, start, n)
    requires edges[n].x in lookup && edges[n].y in lookup
    requires w.edge == LookupOf(lookup, edges[n]) && w.face == f
    requires Threaded(nodes0, w, start, n, |edges|, nodes)
    ensures FacePlaced(edges, lookup, f, nodes, start, n + 1)
    ensures forall j :: 0 <= j < start ==> nodes[j] == nodes0[j]
    ensures forall j :: 0 <= j < |nodes0| ==> nodes[j].edge == nodes0[j].edge && nodes[j].opposite == nodes0[j].opposite
  {
    var i := |nodes0|;
    forall j | 0 <= j < n + 1
      ensures edges[j].x in lookup && edges[j].y in lookup
      ensures nodes[start + j].edge == LookupOf(lookup, edges[j]) && nodes[start + j].face == f
      ensures nodes[start + j].next == LinkNext(start, j, n + 1, |edges|)
      ensures nodes[start + j].previous == LinkPrev(start, j, n + 1, |edges|)
    {
      if j < n {
        assert nodes[start + j] == nodes0[start + j].(next := if n > 0 && start + j == i - 1 then Some(i) else nodes0[start + j].next,
                                                      previous := if n == |edges| - 1 && j == 0 then Some(i) else nodes0[start + j].previous);
      }
    }
  }

  /** Changing only links leaves the keys, and so the opposite specification, as they were. */
  lemma KeysKept(nodes0: seq<Wing>, nodes: seq<Wing>)
    requires |nodes0| == |nodes|
    requires forall j :: 0 <= j < |nodes0| ==> nodes[j].edge == nodes0[j].edge && nodes[j].opposite == nodes0[j].opposite
    ensures KeysOf(nodes0) == KeysOf(nodes)
    ensures OppositesSet(nodes0) ==> OppositesSet(nodes)
  {
    assert KeysOf(nodes0) == KeysOf(nodes);
  }

  /**
   * The state of the inner loop once `n` nodes of the face with sorted edges
   * `edges` exist: the nodes before the face keep the links they had in
   * `base`, the face's first `n` nodes are placed, the dictionary and the
   * opposites are as specified, and the face's wings so far are listed.
   */
  predicate FaceStage(edges: seq<Edge>, lookup: map<int, int>, f: nat, oneWingPerFace: bool,
                      base: seq<Wing>, wingedBase: seq<nat>, n: nat,
                      nodes: seq<Wing>, opposites: map<Edge, nat>, winged: seq<nat>) {
    |nodes| == |base| + n &&
    (forall j :: 0 <= j < |base| ==> SameLinks(base[j], nodes[j])) &&
    FacePlaced(edges, lookup, f, nodes, |base|, n) &&
    opposites == FirstIndices(KeysOf(nodes)) && OppositesSet(nodes) &&
    winged == wingedBase + FaceWings(|base|, n, oneWingPerFace)
  }

  /** Every index registered in the dictionary names one of the first `n` nodes. */
  predicate Below(opposites: map<Edge, nat>, n: nat) {
    forall k :: k in opposites ==> opposites[k] < n
  }

  /** The state the builder carries between nodes: the arena, the opposites dictionary and the wings listed so far. */
  datatype Stage = Stage(nodes: seq<Wing>, opposites: map<Edge, nat>, winged: seq<nat>)

  /**
   * Appending the `n`-th node `w` of a `k`-edge face whose first node is
   * `start`: after the first node `w.previous = prev; prev.next = w`, on the
   * last `w.next = first; first.previous = w`.
   */
  function LinkNode(nodes0: seq<Wing>, w: Wing, start: nat, n: nat, k: nat): (r: seq<Wing>)
    requires start + n == |nodes0| && n < k
    ensures |r| == |nodes0| + 1
  {
    var i := |nodes0|;
    var a := nodes0 + [w];
    var b := if n > 0 then
               var a1 := a[i := a[i].(previous := Some(i - 1))];
               a1[i - 1 := a1[i - 1].(next := Some(i))]
             else a;
    if n == k - 1 then
      var b1 := b[i := b[i].(next := Some(start))];
      b1[start := b1[start].(previous := Some(i))]
    else b
  }

  /**
   * Pairing the newest node with its opposite: on a hit in the dictionary
   * the registered node and the newest node point at each other (the entry
   * stays), on a miss the newest node's opposite is cleared and it is
   * registered.
   */
  function PairNode(nodes: seq<Wing>, opposites: map<Edge, nat>): (r: (seq<Wing>, map<Edge, nat>))
    requires |nodes| > 0 && Below(opposites, |nodes| - 1)
    ensures |r.0| == |nodes| && Below(r.1, |nodes|)
  {
    var i := |nodes| - 1;
    var key := Key(nodes[i].edge.common);
    if key in opposites then
      var opp := opposites[key];
      var a := nodes[opp := nodes[opp].(opposite := Some(i))];
      (a[i := a[i].(opposite := Some(opp))], opposites)
    else
      (nodes[i := nodes[i].(opposite := None)], opposites[key := i])
  }

  /** Linking a fresh node, given pointwise. */
  lemma LinkNodeThreaded(nodes0: seq<Wing>, w: Wing, start: nat, n: nat, k: nat)
    requires start + n == |nodes0| && n < k && w.next == None && w.previous == None
    ensures Threaded(nodes0, w, start, n, k, LinkNode(nodes0, w, start, n, k))
  {
  }

  /** Pairing, given pointwise. */
  lemma PairNodeStepped(nodes: seq<Wing>, opposites: map<Edge, nat>)
    requires |nodes| > 0 && Below(opposites, |nodes| - 1)
    ensures var r := PairNode(nodes, opposites); OppositeStepped(nodes, opposites, r.0, r.1)
  {
  }

  /**
   * One iteration of the inner loop for edge `edges[n]` of face `f`: create
   * its node, link it into the ring, pair it with its opposite, and list it
   * unless only the first node of each face is wanted.
   */
  function StepFace(edges: seq<Edge>, lookup: map<int, int>, f: nat, oneWingPerFace: bool, start: nat, n: nat, s: Stage): (r: Stage)
    requires n < |edges| && start + n == |s.nodes| && Below(s.opposites, |s.nodes|)
    requires edges[n].x in lookup && edges[n].y in lookup
    ensures |r.nodes| == |s.nodes| + 1 && Below(r.opposites, |r.nodes|)
  {
    var i := |s.nodes|;
    var w := Wing(LookupOf(lookup, edges[n]), f, None, None, None);
    var paired := PairNode(LinkNode(s.nodes, w, start, n, |edges|), s.opposites);
    Stage(paired.0, paired.1, if !oneWingPerFace || n < 1 then s.winged + [i] else s.winged)
  }

  /** The state after the inner loop has run over the first `n` edges of a face, or None once an edge index is missing from the weld lookup. */
  function ThreadSpec(edges: seq<Edge>, lookup: map<int, int>, f: nat, oneWingPerFace: bool, s0: Stage, n: nat): (r: Option<Stage>)
    requires n <= |edges| && Below(s0.opposites, |s0.nodes|)
    ensures r.Some? ==> |r.value.nodes| == |s0.nodes| + n && Below(r.value.opposites, |r.value.nodes|)
  {
    if n == 0 then Some(s0)
    else
      match ThreadSpec(edges, lookup, f, oneWingPerFace, s0, n - 1)
      case None => None
      case Some(s) =>
        if edges[n - 1].x in lookup && edges[n - 1].y in lookup then
          Some(StepFace(edges, lookup, f, oneWingPerFace, |s0.nodes|, n - 1, s))
        else None
  }

  /**
   * The state after the outer loop has run over the first `upTo` faces,
   * each given by its edges in threading order, or None once an edge index
   * is missing from the weld lookup.
   */
  function BuildSpec(faces: seq<seq<Edge>>, lookup: map<int, int>, oneWingPerFace: bool, upTo: nat): (r: Option<Stage>)
    requires upTo <= |faces|
    ensures r.Some? ==> |r.value.nodes| == Offset(faces, upTo) && Below(r.value.opposites, |r.value.nodes|)
  {
    if upTo == 0 then Some(Stage([], map[], []))
    else
      match BuildSpec(faces, lookup, oneWingPerFace, upTo - 1)
      case None => None
      case Some(s) => ThreadSpec(faces[upTo - 1], lookup, upTo - 1, oneWingPerFace, s, |faces[upTo - 1]|)
  }

  /** Linking the node of `edges[n]` places one more node of the face and changes no node before the face. */
  lemma LinkKeeps(edges: seq<Edge>, lookup: map<int, int>, f: nat, base: seq<Wing>, n: nat, nodes0: seq<Wing>)
    requires n < |edges| && edges[n].x in lookup && edges[n].y in lookup && |base| + n == |nodes0|
    requires FacePlaced(edges, lookup, f, nodes0, |base|, n)
    requires forall j :: 0 <= j < |base| ==> SameLinks(base[j], nodes0[j])
    ensures var linked := LinkNode(nodes0, Wing(LookupOf(lookup, edges[n]), f, None, None, None), |base|, n, |edges|);
            FacePlaced(edges, lookup, f, linked, |base|, n + 1) &&
            (forall j :: 0 <= j < |base| ==> SameLinks(base[j], linked[j])) &&
            KeysOf(linked[..|linked| - 1]) == KeysOf(nodes0) &&
            (OppositesSet(nodes0) ==> OppositesSet(linked[..|linked| - 1]))
  {
    var w := Wing(LookupOf(lookup, edges[n]), f, None, None, None);
    var linked := LinkNode(nodes0, w, |base|, n, |edges|);
    LinkNodeThreaded(nodes0, w, |base|, n, |edges|);
    ThreadedPlaced(edges, lookup, f, nodes0, w, |base|, n, linked);
    KeysKept(nodes0, linked[..|linked| - 1]);
  }

  /** Pairing the newest node changes no links and restores the dictionary and opposite specifications. */
  lemma PairNodeKeeps(linked: seq<Wing>, opposites0: map<Edge, nat>)
    requires |linked| > 0
    requires opposites0 == FirstIndices(KeysOf(linked[..|linked| - 1])) && OppositesSet(linked[..|linked| - 1])
    ensures Below(opposites0, |linked| - 1)
    ensures var paired := PairNode(linked, opposites0);
            |paired.0| == |linked| && (forall j :: 0 <= j < |linked| ==> SameLinks(linked[j], paired.0[j])) &&
            paired.1 == FirstIndices(KeysOf(paired.0)) && OppositesSet(paired.0)
  {
    var paired := PairNode(linked, opposites0);
    PairNodeStepped(linked, opposites0);
    OppositeStepKeepsLinks(linked, opposites0, paired.0, paired.1);
    OppositeStepKeepsOpposites(linked, opposites0, paired.0, paired.1);
  }

  /** Changing only opposites keeps the nodes before the face and the placed nodes of the face. */
  lemma LinksKept(edges: seq<Edge>, lookup: map<int, int>, f: nat, base: seq<Wing>, n: nat, linked: seq<Wing>, paired: seq<Wing>)
    requires FacePlaced(edges, lookup, f, linked, |base|, n)
    requires |base| <= |linked| && forall j :: 0 <= j < |base| ==> SameLinks(base[j], linked[j])
    requires |linked| == |paired| && forall j :: 0 <= j < |linked| ==> SameLinks(linked[j], paired[j])
    ensures FacePlaced(edges, lookup, f, paired, |base|, n)
    ensures forall j :: 0 <= j < |base| ==> SameLinks(base[j], paired[j])
  {
    FacePlacedStable(edges, lookup, f, linked, paired, |base|, n);
  }

  /** The three parts of the state after one iteration of the inner loop. */
  lemma StepFaceParts(edges: seq<Edge>, lookup: map<int, int>, f: nat, oneWingPerFace: bool, start: nat, n: nat, s: Stage)
    requires n < |edges| && start + n == |s.nodes| && Below(s.opposites, |s.nodes|)
    requires edges[n].x in lookup && edges[n].y in lookup
    ensures var linked := LinkNode(s.nodes, Wing(LookupOf(lookup, edges[n]), f, None, None, None), start, n, |edges|);
            var r := StepFace(edges, lookup, f, oneWingPerFace, start, n, s);
            r.nodes == PairNode(linked, s.opposites).0 && r.opposites == PairNode(linked, s.opposites).1 &&
            r.winged == s.winged + if !oneWingPerFace || n < 1 then [start + n] else []
  {
  }

  /** A dictionary that maps each key to its first node registers only nodes of the arena. */
  lemma FirstIndicesBelow(nodes: seq<Wing>, opposites: map<Edge, nat>)
    requires opposites == FirstIndices(KeysOf(nodes))
    ensures Below(opposites, |nodes|)
  {
  }

  /** One iteration of the inner loop extends the listed wings by the new node's share. */
  lemma StepFaceWings(edges: seq<Edge>, lookup: map<int, int>, f: nat, oneWingPerFace: bool,
                      base: seq<Wing>, wingedBase: seq<nat>, n: nat, s: Stage)
    requires 0 < n <= |edges| && edges[n - 1].x in lookup && edges[n - 1].y in lookup
    requires |s.nodes| == |base| + n - 1 && Below(s.opposites, |s.nodes|)
    requires s.winged == wingedBase + FaceWings(|base|, n - 1, oneWingPerFace)
    ensures StepFace(edges, lookup, f, oneWingPerFace, |base|, n - 1, s).winged ==
            wingedBase + FaceWings(|base|, n, oneWingPerFace)
  {
    var r := StepFace(edges, lookup, f, oneWingPerFace, |base|, n - 1, s);
    StepFaceParts(edges, lookup, f, oneWingPerFace, |base|, n - 1, s);
    FaceWingsStep(wingedBase, s.winged, r.winged, |base|, n - 1, oneWingPerFace);
  }

  /**
   * One iteration of the inner loop places one more node of the face, keeps
   * the links of the nodes before the face, and keeps the dictionary and the
   * opposites as specified.
   */
  lemma StepFaceNodes(edges: seq<Edge>, lookup: map<int, int>, f: nat, oneWingPerFace: bool,
                      base: seq<Wing>, n: nat, s: Stage)
    requires 0 < n <= |edges| && edges[n - 1].x in lookup && edges[n - 1].y in lookup
    requires |s.nodes| == |base| + n - 1 && Below(s.opposites, |s.nodes|)
    requires forall j :: 0 <= j < |base| ==> SameLinks(base[j], s.nodes[j])
    requires FacePlaced(edges, lookup, f, s.nodes, |base|, n - 1)
    requires s.opposites == FirstIndices(KeysOf(s.nodes)) && OppositesSet(s.nodes)
    ensures var r := StepFace(edges, lookup, f, oneWingPerFace, |base|, n - 1, s);
            |r.nodes| == |base| + n &&
            (forall j :: 0 <= j < |base| ==> SameLinks(base[j], r.nodes[j])) &&
            FacePlaced(edges, lookup, f, r.nodes, |base|, n) &&
            r.opposites == FirstIndices(KeysOf(r.nodes)) && OppositesSet(r.nodes)
  {
    var m := n - 1;
    var linked := LinkNode(s.nodes, Wing(LookupOf(lookup, edges[m]), f, None, None, None), |base|, m, |edges|);
    LinkKeeps(edges, lookup, f, base, m, s.nodes);
    PairNodeKeeps(linked, s.opposites);
    LinksKept(edges, lookup, f, base, n, linked, PairNode(linked, s.opposites).0);
    StepFaceParts(edges, lookup, f, oneWingPerFace, |base|, m, s);
  }

  /** One iteration of the inner loop keeps the face stage, one node further. */
  lemma StepFaceStage(edges: seq<Edge>, lookup: map<int, int>, f: nat, oneWingPerFace: bool,
                      base: seq<Wing>, wingedBase: seq<nat>, n: nat, s: Stage)
    requires 0 < n <= |edges| && edges[n - 1].x in lookup && edges[n - 1].y in lookup
    requires FaceStage(edges, lookup, f, oneWingPerFace, base, wingedBase, n - 1, s.nodes, s.opposites, s.winged)
    ensures Below(s.opposites, |s.nodes|)
    ensures var r := StepFace(edges, lookup, f, oneWingPerFace, |base|, n - 1, s);
            FaceStage(edges, lookup, f, oneWingPerFace, base, wingedBase, n, r.nodes, r.opposites, r.winged)
  {
    FirstIndicesBelow(s.nodes, s.opposites);
    StepFaceNodes(edges, lookup, f, oneWingPerFace, base, n, s);
    StepFaceWings(edges, lookup, f, oneWingPerFace, base, wingedBase, n, s);
  }

  /** Before the inner loop the face stage holds with no node of the face. */
  lemma FaceStageStart(edges: seq<Edge>, lookup: map<int, int>, f: nat, oneWingPerFace: bool, s0: Stage)
    requires s0.opposites == FirstIndices(KeysOf(s0.nodes)) && OppositesSet(s0.nodes)
    ensures FaceStage(edges, lookup, f, oneWingPerFace, s0.nodes, s0.winged, 0, s0.nodes, s0.opposites, s0.winged)
  {
    assert s0.winged + [] == s0.winged;
  }

  /** One more edge of the face: the face stage of the prefix carries over to the longer prefix. */
  lemma {:induction false} ThreadSpecStep(edges: seq<Edge>, lookup: map<int, int>, f: nat, oneWingPerFace: bool, s0: Stage, n: nat)
    requires 0 < n <= |edges| && Below(s0.opposites, |s0.nodes|)
    requires s0.opposites == FirstIndices(KeysOf(s0.nodes)) && OppositesSet(s0.nodes)
    ensures var r := ThreadSpec(edges, lookup, f, oneWingPerFace, s0, n);
            r.Some? ==> FaceStage(edges, lookup, f, oneWingPerFace, s0.nodes, s0.winged, n, r.value.nodes, r.value.opposites, r.value.winged)
    decreases n, 0
  {
    ThreadSpecStage(edges, lookup, f, oneWingPerFace, s0, n - 1);
    var r := ThreadSpec(edges, lookup, f, oneWingPerFace, s0, n - 1);
    if r.Some? && edges[n - 1].x in lookup && edges[n - 1].y in lookup {
      StepFaceStage(edges, lookup, f, oneWingPerFace, s0.nodes, s0.winged, n, r.value);
    }
  }

  /** The inner loop, from a stage whose dictionary and opposites are as specified, reaches the face stage of every prefix of the face. */
  lemma {:induction false} ThreadSpecStage(edges: seq<Edge>, lookup: map<int, int>, f: nat, oneWingPerFace: bool, s0: Stage, n: nat)
    requires n <= |edges| && Below(s0.opposites, |s0.nodes|)
    requires s0.opposites == FirstIndices(KeysOf(s0.nodes)) && OppositesSet(s0.nodes)
    ensures var r := ThreadSpec(edges, lookup, f, oneWingPerFace, s0, n);
            r.Some? ==> FaceStage(edges, lookup, f, oneWingPerFace, s0.nodes, s0.winged, n, r.value.nodes, r.value.opposites, r.value.winged)
    decreases n, 1
  {
    if n == 0 {
      FaceStageStart(edges, lookup, f, oneWingPerFace, s0);
    } else {
      ThreadSpecStep(edges, lookup, f, oneWingPerFace, s0, n);
    }
  }

  /** The state after `upTo` faces: the faces so far are placed, the dictionary and the opposites are as specified, and their wings are listed. */
  predicate BuiltUpTo(faces: seq<seq<Edge>>, lookup: map<int, int>, oneWingPerFace: bool, upTo: nat, s: Stage)
    requires upTo <= |faces|
  {
    |s.nodes| == Offset(faces, upTo) &&
    (forall f {:trigger FacePlaced(faces[f], lookup, f, s.nodes, Offset(faces, f), |faces[f]|)} :: 0 <= f < upTo ==>
      FacePlaced(faces[f], lookup, f, s.nodes, Offset(faces, f), |faces[f]|)) &&
    s.opposites == FirstIndices(KeysOf(s.nodes)) && OppositesSet(s.nodes) &&
    s.winged == Listed(faces, upTo, oneWingPerFace)
  }

  /** Threading face `upTo` extends the built prefix by that face. */
  lemma BuiltUpToStep(faces: seq<seq<Edge>>, lookup: map<int, int>, oneWingPerFace: bool, upTo: nat, s: Stage, r: Stage)
    requires upTo < |faces| && BuiltUpTo(faces, lookup, oneWingPerFace, upTo, s)
    requires FaceStage(faces[upTo], lookup, upTo, oneWingPerFace, s.nodes, s.winged, |faces[upTo]|, r.nodes, r.opposites, r.winged)
    ensures BuiltUpTo(faces, lookup, oneWingPerFace, upTo + 1, r)
  {
    forall f | 0 <= f < upTo + 1
      ensures FacePlaced(faces[f], lookup, f, r.nodes, Offset(faces, f), |faces[f]|)
    {
      if f == upTo {
        assert faces[f] == faces[upTo] && Offset(faces, f) == |s.nodes|;
      } else {
        FacePlacedStable(faces[f], lookup, f, s.nodes, r.nodes, Offset(faces, f), |faces[f]|);
      }
    }
  }

  /** The outer loop starts from the empty prefix. */
  lemma BuiltUpToStart(faces: seq<seq<Edge>>, lookup: map<int, int>, oneWingPerFace: bool)
    ensures BuiltUpTo(faces, lookup, oneWingPerFace, 0, Stage([], map[], []))
  {
    assert KeysOf([]) == [];
  }

  /** An iteration of the outer loop that does not fail extends the built prefix by one face. */
  lemma BuildSpecStep(faces: seq<seq<Edge>>, lookup: map<int, int>, oneWingPerFace: bool, upTo: nat, s: Stage, next: nat)
    requires upTo < |faces| && next == upTo + 1
    requires BuildSpec(faces, lookup, oneWingPerFace, upTo) == Some(s) && BuiltUpTo(faces, lookup, oneWingPerFace, upTo, s)
    ensures var r := BuildSpec(faces, lookup, oneWingPerFace, next);
            r.Some? ==> BuiltUpTo(faces, lookup, oneWingPerFace, next, r.value)
  {
    ThreadSpecStage(faces[upTo], lookup, upTo, oneWingPerFace, s, |faces[upTo]|);
    var r := ThreadSpec(faces[upTo], lookup, upTo, oneWingPerFace, s, |faces[upTo]|);
    if r.Some? {
      BuiltUpToStep(faces, lookup, oneWingPerFace, upTo, s, r.value);
    }
  }

  /** Every state the outer loop reaches is the built prefix. */
  lemma {:induction false} BuildSpecBuiltUpTo(faces: seq<seq<Edge>>, lookup: map<int, int>, oneWingPerFace: bool, upTo: nat)
    requires upTo <= |faces|
    ensures var r := BuildSpec(faces, lookup, oneWingPerFace, upTo);
            r.Some? ==> BuiltUpTo(faces, lookup, oneWingPerFace, upTo, r.value)
  {
    if upTo == 0 {
      BuiltUpToStart(faces, lookup, oneWingPerFace);
    } else {
      BuildSpecBuiltUpTo(faces, lookup, oneWingPerFace, upTo - 1);
      var s := BuildSpec(faces, lookup, oneWingPerFace, upTo - 1);
      if s.Some? {
        BuildSpecStep(faces, lookup, oneWingPerFace, upTo - 1, s.value, upTo);
      }
    }
  }

  /** The edges of every face in the order the builder threads them: sorted by adjacency. */
  function SortedFaces(faces: seq<seq<Edge>>): (r: seq<seq<Edge>>)
    ensures |r| == |faces| && forall f :: 0 <= f < |faces| ==> r[f] == SortByAdjacency(faces[f])
  {
    seq(|faces|, f requires 0 <= f < |faces| => SortByAdjacency(faces[f]))
  }

  /** Sorting reorders each face: the same edges as a multiset, so as many, and the same first edge. */
  lemma SortedFacesPermute(faces: seq<seq<Edge>>, f: nat)
    requires f < |faces|
    ensures |SortedFaces(faces)[f]| == |faces[f]| && multiset(SortedFaces(faces)[f]) == multiset(faces[f])
    ensures |faces[f]| > 0 ==> SortedFaces(faces)[f][0] == faces[f][0]
  {
    var sorted := SortByAdjacency(faces[f]);
    assert |sorted| == |faces[f]| && multiset(sorted) == multiset(faces[f]);
  }

  /** Sorting each face does not change whether all faces are welded. */
  lemma SortedFacesWelded(lookup: map<int, int>, faces: seq<seq<Edge>>)
    ensures AllWelded(lookup, SortedFaces(faces)) <==> AllWelded(lookup, faces)
  {
    forall f | 0 <= f < |faces| ensures Welded(lookup, SortedFaces(faces)[f]) <==> Welded(lookup, faces[f]) {
      SortKeepsWelded(lookup, faces[f]);
    }
  }

  /** A built arena found an entry in the weld lookup for every edge index of every face. */
  lemma BuiltWelded(faces: seq<seq<Edge>>, lookup: map<int, int>, nodes: seq<Wing>)
    requires Built(faces, lookup, nodes)
    ensures AllWelded(lookup, faces)
  {
    forall f | 0 <= f < |faces| ensures Welded(lookup, faces[f]) {
      assert FacePlaced(faces[f], lookup, f, nodes, Offset(faces, f), |faces[f]|);
    }
  }

  /**
   * The body of the inner loop for edge `edges[n]` of face `f`, whose first
   * node is `first`: create the node, link it into the ring, pair it with
   * its opposite through the dictionary, and list it.
   */
  method AddWing(edges: seq<Edge>, lookup: map<int, int>, f: nat, oneWingPerFace: bool, first: nat, n: nat,
                 nodes0: seq<Wing>, opposites0: map<Edge, nat>, winged0: seq<nat>)
    returns (nodes: seq<Wing>, opposites: map<Edge, nat>, winged: seq<nat>)
    requires n < |edges| && first + n == |nodes0| && Below(opposites0, |nodes0|)
    requires edges[n].x in lookup && edges[n].y in lookup
    ensures Stage(nodes, opposites, winged) == StepFace(edges, lookup, f, oneWingPerFace, first, n, Stage(nodes0, opposites0, winged0))
  {
    var e := edges[n];
    var edgeLength := |edges|;
    var w := Wing(LookupOf(lookup, e), f, None, None, None);
    var i := |nodes0|;
    nodes, opposites, winged := nodes0 + [w], opposites0, winged0;
    if n > 0 {
      nodes := nodes[i := nodes[i].(previous := Some(i - 1))];
      nodes := nodes[i - 1 := nodes[i - 1].(next := Some(i))];
    }
    if n == edgeLength - 1 {
      nodes := nodes[i := nodes[i].(next := Some(first))];
      nodes := nodes[first := nodes[first].(previous := Some(i))];
    }
    ghost var linked := LinkNode(nodes0, w, first, n, edgeLength);
    assert nodes == linked;
    var key := Key(nodes[i].edge.common);
    if key in opposites {
      var opp := opposites[key];
      nodes := nodes[opp := nodes[opp].(opposite := Some(i))];
      nodes := nodes[i := nodes[i].(opposite := Some(opp))];
    } else {
      nodes := nodes[i := nodes[i].(opposite := None)];
      opposites := opposites[key := i];
    }
    assert (nodes, opposites) == PairNode(linked, opposites0);
    if !oneWingPerFace || n < 1 {
      winged := winged + [i];
    }
  }

  /**
   * The inner loop of `GetWingedEdges` over the edges of one face in
   * threading order: a node per edge, linked into the face's ring, paired
   * with its opposite and listed. Fails, as the source throws, at the first
   * edge index with no entry in the weld lookup.
   */
  method ThreadFace(edges: seq<Edge>, lookup: map<int, int>, f: nat, oneWingPerFace: bool,
                    nodes0: seq<Wing>, opposites0: map<Edge, nat>, winged0: seq<nat>)
    returns (ok: bool, nodes: seq<Wing>, opposites: map<Edge, nat>, winged: seq<nat>)
    requires Below(opposites0, |nodes0|)
    ensures ok ==> ThreadSpec(edges, lookup, f, oneWingPerFace, Stage(nodes0, opposites0, winged0), |edges|) == Some(Stage(nodes, opposites, winged))
    ensures !ok ==> !Welded(lookup, edges)
  {
    nodes, opposites, winged := nodes0, opposites0, winged0;
    var edgeLength := |edges|;
    var first := |nodes|;
    for n := 0 to edgeLength
      invariant ThreadSpec(edges, lookup, f, oneWingPerFace, Stage(nodes0, opposites0, winged0), n) == Some(Stage(nodes, opposites, winged))
    {
      var e := edges[n];
      if !(e.x in lookup && e.y in lookup) {
        return false, nodes, opposites, winged;
      }
      nodes, opposites, winged := AddWing(edges, lookup, f, oneWingPerFace, first, n, nodes, opposites, winged);
    }
    ok := true;
  }

  /** The outer loop's final state is the built arena, and reaching it means every face was welded. */
  /** One more face threaded after the state for the first `f` faces gives the state for `f + 1`. */
  lemma BuildSpecNext(faces: seq<seq<Edge>>, lookup: map<int, int>, oneWingPerFace: bool, f: nat, s: Stage, t: Stage)
    requires f < |faces| && BuildSpec(faces, lookup, oneWingPerFace, f) == Some(s)
    requires ThreadSpec(faces[f], lookup, f, oneWingPerFace, s, |faces[f]|) == Some(t)
    ensures BuildSpec(faces, lookup, oneWingPerFace, f + 1) == Some(t)
  {
  }

  /** A face whose sorted edges are not all welded makes the whole mesh unwelded. */
  lemma SortedFaceUnwelded(lookup: map<int, int>, faces: seq<seq<Edge>>, f: nat)
    requires f < |faces| && !Welded(lookup, SortedFaces(faces)[f])
    ensures !AllWelded(lookup, faces)
  {
    SortKeepsWelded(lookup, faces[f]);
  }

  lemma BuildSpecBuilt(faces: seq<seq<Edge>>, lookup: map<int, int>, oneWingPerFace: bool, s: Stage)
    requires BuildSpec(SortedFaces(faces), lookup, oneWingPerFace, |faces|) == Some(s)
    ensures AllWelded(lookup, faces)
    ensures Built(SortedFaces(faces), lookup, s.nodes) && s.winged == Listed(SortedFaces(faces), |faces|, oneWingPerFace)
  {
    BuildSpecBuiltUpTo(SortedFaces(faces), lookup, oneWingPerFace, |faces|);
    BuiltWelded(SortedFaces(faces), lookup, s.nodes);
    SortedFacesWelded(lookup, faces);
  }

  /**
   * `GetWingedEdges` over `faces` (already distinct) with the weld lookup
   * `lookup`: for each face, sort its edges by adjacency and, edge by edge,
   * create a node, thread it into the face's ring and pair it with its
   * opposite through the dictionary. Returns the arena and the listed wings;
   * `ok` is false where the source throws because an edge index has no
   * entry in the lookup.
   */
  method GetWingedEdges(faces: seq<seq<Edge>>, lookup: map<int, int>, oneWingPerFace: bool)
    returns (ok: bool, arena: seq<Wing>, winged: seq<nat>)
    ensures ok <==> AllWelded(lookup, faces)
    ensures ok ==> Built(SortedFaces(faces), lookup, arena) && winged == Listed(SortedFaces(faces), |faces|, oneWingPerFace)
  {
    ghost var rings := SortedFaces(faces);
    var nodes: seq<Wing> := [];
    var opposites: map<Edge, nat> := map[];
    winged := [];
    for f := 0 to |faces|
      invariant BuildSpec(rings, lookup, oneWingPerFace, f) == Some(Stage(nodes, opposites, winged))
    {
      var edges := SortFaceEdges(faces[f]);
      assert edges == rings[f];
      ghost var before := Stage(nodes, opposites, winged);
      var faceOk;
      faceOk, nodes, opposites, winged := ThreadFace(edges, lookup, f, oneWingPerFace, nodes, opposites, winged);
      if !faceOk {
        SortedFaceUnwelded(lookup, faces, f);
        return false, [], [];
      }
      BuildSpecNext(rings, lookup, oneWingPerFace, f, before, Stage(nodes, opposites, winged));
    }
    ok, arena := true, nodes;
    BuildSpecBuilt(faces, lookup, oneWingPerFace, Stage(arena, opposites, winged));
  }
}
