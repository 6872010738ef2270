/**
 * Vertex-centred queries over a list of winged-edge nodes: `GetSpokes` and
 * `SortCommonIndicesByAdjacency`.
 */
module Spokes {
  import opened Wrappers
  import opened Edges
  import opened Wings
  import opened EdgeSort

  /** Every entry of `wings` names a node of the arena. */
  predicate AllInArena(a: seq<Wing>, wings: seq<nat>) {
    forall i :: 0 <= i < |wings| ==> wings[i] < |a|
  }

  /** The common endpoints of the listed nodes. */
  function Endpoints(a: seq<Wing>, wings: seq<nat>): set<int>
    requires AllInArena(a, wings)
  {
    if wings == [] then {}
    else
      var e := a[wings[|wings| - 1]].edge.common;
      Endpoints(a, wings[..|wings| - 1]) + {e.x, e.y}
  }

  /**
   * The spoke list of vertex `v`: the listed nodes whose common edge touches
   * `v`, in list order, a node appearing once per endpoint equal to `v`.
   */
  function Incident(a: seq<Wing>, wings: seq<nat>, v: int): seq<nat>
    requires AllInArena(a, wings)
  {
    if wings == [] then []
    else
      var w := wings[|wings| - 1];
      var e := a[w].edge.common;
      Incident(a, wings[..|wings| - 1], v) + (if e.x == v then [w] else []) + (if e.y == v then [w] else [])
  }

  /** The keys in the order the dictionary first sees them: `common.x` before `common.y`. */
  function InsertionOrder(a: seq<Wing>, wings: seq<nat>): seq<int>
    requires AllInArena(a, wings)
  {
    if wings == [] then []
    else
      var e := a[wings[|wings| - 1]].edge.common;
      var before := InsertionOrder(a, wings[..|wings| - 1]);
      var withX := before + (if e.x in before then [] else [e.x]);
      withX + (if e.y in withX then [] else [e.y])
  }

  /** No key occurs twice. */
  predicate Distinct(ks: seq<int>) {
    forall i, j :: 0 <= i < j < |ks| ==> ks[i] != ks[j]
  }

  /** The insertion order lists every endpoint once. */
  lemma {:induction false} InsertionOrderKeys(a: seq<Wing>, wings: seq<nat>)
    requires AllInArena(a, wings)
    ensures forall v :: v in InsertionOrder(a, wings) <==> v in Endpoints(a, wings)
    ensures Distinct(InsertionOrder(a, wings))
  {
    if wings != [] {
      var init := wings[..|wings| - 1];
      var e := a[wings[|wings| - 1]].edge.common;
      InsertionOrderKeys(a, init);
      var before := InsertionOrder(a, init);
      AppendNew(before, e.x);
      AppendNew(before + (if e.x in before then [] else [e.x]), e.y);
    }
  }

  /** Appending a key only when it is new keeps a list of keys free of repeats. */
  lemma AppendNew(ks: seq<int>, k: int)
    requires Distinct(ks)
    ensures forall v :: v in ks + (if k in ks then [] else [k]) <==> v in ks || v == k
    ensures Distinct(ks + (if k in ks then [] else [k]))
  {
  }

  /** The total length of the lists stored under the keys `ks` (a missing key counting 0). */
  function TotalLength(m: map<int, seq<nat>>, ks: seq<int>): nat {
    if ks == [] then 0
    else TotalLength(m, ks[..|ks| - 1]) + (if ks[|ks| - 1] in m then |m[ks[|ks| - 1]]| else 0)
  }

  /** The dictionary after appending `w` to the list of `k` (a new list when `k` is absent). */
  function AddSpoke(m: map<int, seq<nat>>, k: int, w: nat): map<int, seq<nat>> {
    m[k := if k in m then m[k] + [w] else [w]]
  }

  lemma {:induction false} TotalLengthUpdate(m: map<int, seq<nat>>, ks: seq<int>, k: int, s: seq<nat>)
    requires forall i, j :: 0 <= i < j < |ks| ==> ks[i] != ks[j]
    ensures TotalLength(m[k := s], ks) == TotalLength(m, ks) + (if k in ks then |s| - (if k in m then |m[k]| else 0) else 0)
  {
    if ks != [] {
      var init := ks[..|ks| - 1];
      TotalLengthUpdate(m, init, k, s);
      assert ks[|ks| - 1] !in init;
    }
  }

  /** Appending one node to the list of one key adds one to the total over the keys seen so far. */
  lemma AddSpokeTotal(m: map<int, seq<nat>>, ks: seq<int>, k: int, w: nat)
    requires forall j :: j in ks <==> j in m
    requires forall i, j :: 0 <= i < j < |ks| ==> ks[i] != ks[j]
    ensures TotalLength(AddSpoke(m, k, w), ks + (if k in ks then [] else [k])) == TotalLength(m, ks) + 1
  {
    var m' := AddSpoke(m, k, w);
    TotalLengthUpdate(m, ks, k, m'[k]);
    if k in ks {
      assert k in m && |m'[k]| == |m[k]| + 1;
      assert ks + [] == ks;
    } else {
      var ks' := ks + [k];
      assert ks'[..|ks'| - 1] == ks;
      assert TotalLength(m', ks') == TotalLength(m', ks) + 1;
    }
  }

  /** The keys after `AddSpoke` are the old keys, plus `k` at the end when it is new. */
  lemma AddSpokeKeys(m: map<int, seq<nat>>, ks: seq<int>, k: int, w: nat)
    requires forall j :: j in ks <==> j in m
    requires forall i, j :: 0 <= i < j < |ks| ==> ks[i] != ks[j]
    ensures forall j :: j in ks + (if k in ks then [] else [k]) <==> j in AddSpoke(m, k, w)
    ensures var ks' := ks + (if k in ks then [] else [k]);
            forall i, j :: 0 <= i < j < |ks'| ==> ks'[i] != ks'[j]
  {
  }

  /** One iteration of `GetSpokes` keeps the key set equal to the endpoints of the nodes seen so far. */
  lemma SpokesKeysStep(a: seq<Wing>, grown: seq<nat>, m: map<int, seq<nat>>, m2: map<int, seq<nat>>)
    requires AllInArena(a, grown) && grown != []
    requires m.Keys == Endpoints(a, grown[..|grown| - 1])
    requires var w := grown[|grown| - 1];
             m2 == AddSpoke(AddSpoke(m, a[w].edge.common.x, w), a[w].edge.common.y, w)
    ensures m2.Keys == Endpoints(a, grown)
  {
  }

  /** One iteration of `GetSpokes` keeps every list equal to the spoke list of its vertex. */
  lemma SpokesValuesStep(a: seq<Wing>, grown: seq<nat>, m: map<int, seq<nat>>, m2: map<int, seq<nat>>)
    requires AllInArena(a, grown) && grown != []
    requires m.Keys == Endpoints(a, grown[..|grown| - 1])
    requires forall v :: v in m ==> m[v] == Incident(a, grown[..|grown| - 1], v)
    requires var w := grown[|grown| - 1];
             m2 == AddSpoke(AddSpoke(m, a[w].edge.common.x, w), a[w].edge.common.y, w)
    ensures forall v :: v in m2 ==> m2[v] == Incident(a, grown, v)
  {
    var seen := grown[..|grown| - 1];
    var w := grown[|grown| - 1];
    var e := a[w].edge.common;
    forall v | v in m2 ensures m2[v] == Incident(a, grown, v) {
      assert Incident(a, grown, v) == Incident(a, seen, v) + (if e.x == v then [w] else []) + (if e.y == v then [w] else []);
      if v !in m {
        IncidentOutside(a, seen, v);
      }
    }
  }

  /** Appending one node under two keys, in turn, adds two to the total over the keys seen so far. */
  lemma AddSpokesTotal(m: map<int, seq<nat>>, ks: seq<int>, x: int, y: int, w: nat)
    requires forall j :: j in ks <==> j in m
    requires forall i, j :: 0 <= i < j < |ks| ==> ks[i] != ks[j]
    ensures var withX := ks + (if x in ks then [] else [x]);
            TotalLength(AddSpoke(AddSpoke(m, x, w), y, w), withX + (if y in withX then [] else [y])) == TotalLength(m, ks) + 2
  {
    AddSpokeTotal(m, ks, x, w);
    AddSpokeKeys(m, ks, x, w);
    AddSpokeTotal(AddSpoke(m, x, w), ks + (if x in ks then [] else [x]), y, w);
  }

  /** One iteration of `GetSpokes` adds two to the total length of the lists. */
  lemma SpokesTotalStep(a: seq<Wing>, grown: seq<nat>, m: map<int, seq<nat>>, m2: map<int, seq<nat>>)
    requires AllInArena(a, grown) && grown != []
    requires m.Keys == Endpoints(a, grown[..|grown| - 1])
    requires TotalLength(m, InsertionOrder(a, grown[..|grown| - 1])) == 2 * (|grown| - 1)
    requires var w := grown[|grown| - 1];
             m2 == AddSpoke(AddSpoke(m, a[w].edge.common.x, w), a[w].edge.common.y, w)
    ensures TotalLength(m2, InsertionOrder(a, grown)) == 2 * |grown|
  {
    var w := grown[|grown| - 1];
    var e := a[w].edge.common;
    var order := InsertionOrder(a, grown[..|grown| - 1]);
    var withX := order + (if e.x in order then [] else [e.x]);
    assert InsertionOrder(a, grown) == withX + (if e.y in withX then [] else [e.y]);
    InsertionOrderKeys(a, grown[..|grown| - 1]);
    AddSpokesTotal(m, order, e.x, e.y, w);
  }


  lemma {:induction false} IncidentOutside(a: seq<Wing>, wings: seq<nat>, v: int)
    requires AllInArena(a, wings)
    requires v !in Endpoints(a, wings)
    ensures Incident(a, wings, v) == []
  {
    if wings != [] {
      IncidentOutside(a, wings[..|wings| - 1], v);
    }
  }

  /**
   * `GetSpokes`: for each listed node, append it to the list of its
   * `common.x` and then to the list of its `common.y`, creating a list on
   * the first sight of a vertex.
   */
  method GetSpokes(a: seq<Wing>, wings: seq<nat>) returns (spokes: map<int, seq<nat>>)
    requires AllInArena(a, wings)
    ensures spokes.Keys == Endpoints(a, wings)
    ensures forall v :: v in spokes ==> spokes[v] == Incident(a, wings, v)
    ensures TotalLength(spokes, InsertionOrder(a, wings)) == 2 * |wings|
  {
    spokes := map[];
    for i := 0 to |wings|
      invariant spokes.Keys == Endpoints(a, wings[..i])
      invariant forall v :: v in spokes ==> spokes[v] == Incident(a, wings[..i], v)
      invariant TotalLength(spokes, InsertionOrder(a, wings[..i])) == 2 * i
    {
      var w := wings[i];
      var e := a[w].edge.common;
      ghost var before := spokes;
      if e.x in spokes {
        spokes := spokes[e.x := spokes[e.x] + [w]];
      } else {
        spokes := spokes[e.x := [w]];
      }
      if e.y in spokes {
        spokes := spokes[e.y := spokes[e.y] + [w]];
      } else {
        spokes := spokes[e.y := [w]];
      }
      assert spokes == AddSpoke(AddSpoke(before, e.x, w), e.y, w);
      ghost var grown := wings[..i + 1];
      assert grown[..|grown| - 1] == wings[..i];
      SpokesKeysStep(a, grown, before, spokes);
      SpokesValuesStep(a, grown, before, spokes);
      SpokesTotalStep(a, grown, before, spokes);
    }
    assert wings[..|wings|] == wings;
  }

  /** The key set is exactly the set of common endpoints of the listed nodes. */
  lemma {:induction false} EndpointsExactly(a: seq<Wing>, wings: seq<nat>, v: int)
    requires AllInArena(a, wings)
    ensures v in Endpoints(a, wings) <==> exists i :: 0 <= i < |wings| && Contains(a[wings[i]].edge.common, v)
  {
    if wings != [] {
      var init := wings[..|wings| - 1];
      EndpointsExactly(a, init, v);
      if v in Endpoints(a, init) {
        var i :| 0 <= i < |init| && Contains(a[init[i]].edge.common, v);
        assert wings[i] == init[i];
      }
      if exists i :: 0 <= i < |wings| && Contains(a[wings[i]].edge.common, v) {
        var i :| 0 <= i < |wings| && Contains(a[wings[i]].edge.common, v);
        if i < |init| {
          assert init[i] == wings[i];
        }
      }
    }
  }

  /** A node is in the spoke list of `v` exactly when it is listed and its common edge touches `v`. */
  lemma {:induction false} IncidentExactly(a: seq<Wing>, wings: seq<nat>, v: int, w: nat)
    requires AllInArena(a, wings)
    ensures w in Incident(a, wings, v) <==>
              (exists i :: 0 <= i < |wings| && wings[i] == w) && w < |a| && Contains(a[w].edge.common, v)
  {
    if wings != [] {
      var init, last := wings[..|wings| - 1], wings[|wings| - 1];
      var e := a[last].edge.common;
      var tail := (if e.x == v then [last] else []) + (if e.y == v then [last] else []);
      assert Incident(a, wings, v) == Incident(a, init, v) + tail;
      assert w in tail <==> w == last && Contains(e, v);
      IncidentExactly(a, init, v, w);
      if exists i :: 0 <= i < |init| && init[i] == w {
        var i :| 0 <= i < |init| && init[i] == w;
        assert wings[i] == w;
      }
      if exists i :: 0 <= i < |wings| && wings[i] == w {
        var i :| 0 <= i < |wings| && wings[i] == w;
        if i < |init| {
          assert init[i] == w;
        }
      }
    }
  }

  /** Spoke lists keep the input order: the lists of a concatenation are the concatenated lists. */
  lemma {:induction false} IncidentKeepsOrder(a: seq<Wing>, w1: seq<nat>, w2: seq<nat>, v: int)
    requires AllInArena(a, w1) && AllInArena(a, w2)
    ensures AllInArena(a, w1 + w2)
    ensures Incident(a, w1 + w2, v) == Incident(a, w1, v) + Incident(a, w2, v)
    decreases |w2|
  {
    if w2 == [] {
      assert w1 + w2 == w1;
    } else {
      var init := w2[..|w2| - 1];
      assert (w1 + w2)[..|w1 + w2| - 1] == w1 + init;
      IncidentKeepsOrder(a, w1, init, v);
    }
  }

  /** The common edges of the listed nodes whose two endpoints both lie in `common`, in list order. */
  function MatchedEdges(a: seq<Wing>, wings: seq<nat>, common: set<int>): (r: seq<Edge>)
    requires AllInArena(a, wings)
    ensures |r| <= |wings|
    ensures forall k :: 0 <= k < |r| ==> r[k].x in common && r[k].y in common
  {
    if wings == [] then []
    else
      var e := a[wings[|wings| - 1]].edge.common;
      MatchedEdges(a, wings[..|wings| - 1], common) + (if e.x in common && e.y in common then [e] else [])
  }

  /** The `x` of each edge. */
  function Starts(s: seq<Edge>): (r: seq<int>)
    ensures |r| == |s| && forall k :: 0 <= k < |s| ==> r[k] == s[k].x
  {
    if s == [] then [] else [s[0].x] + Starts(s[1..])
  }

  lemma StartsConcat(u: seq<Edge>, v: seq<Edge>)
    ensures Starts(u + v) == Starts(u) + Starts(v)
  {
  }

  /** Dropping slot `j` drops one copy of `t[j]`. */
  lemma RemoveAt<T>(t: seq<T>, j: nat)
    requires j < |t|
    ensures multiset(t[..j] + t[j + 1..]) == multiset(t) - multiset{t[j]}
    ensures multiset(t) == multiset(t[..j] + t[j + 1..]) + multiset{t[j]}
  {
    assert t == t[..j] + [t[j]] + t[j + 1..];
  }

  /** A list of the edges' `x` values, slot by slot, is their starts. */
  lemma StartsPointwise(u: seq<Edge>, r: seq<int>)
    requires |r| == |u| && forall k :: 0 <= k < |u| ==> r[k] == u[k].x
    ensures Starts(u) == r
  {
  }

  /** The starts without slot `j` are the starts of the edges without slot `j`. */
  lemma StartsSkip(t: seq<Edge>, j: nat)
    requires j < |t|
    ensures Starts(t[..j] + t[j + 1..]) == Starts(t)[..j] + Starts(t)[j + 1..]
  {
    var rest, starts := t[..j] + t[j + 1..], Starts(t);
    var skipped := starts[..j] + starts[j + 1..];
    forall k | 0 <= k < |rest| ensures skipped[k] == rest[k].x {
      if k < j {
        assert rest[k] == t[k] && skipped[k] == starts[k];
      } else {
        assert rest[k] == t[k + 1] && skipped[k] == starts[k + 1];
      }
    }
    StartsPointwise(rest, skipped);
  }

  /** Dropping slot `j` drops one copy of `t[j].x` from the starts. */
  lemma StartsRemoveAt(t: seq<Edge>, j: nat)
    requires j < |t|
    ensures multiset(Starts(t)) == multiset(Starts(t[..j] + t[j + 1..])) + multiset{t[j].x}
  {
    StartsSkip(t, j);
    RemoveAt(Starts(t), j);
  }

  /** Dropping the first edge drops one copy of it, and one copy of its `x` from the starts. */
  lemma RemoveFirst(s: seq<Edge>)
    requires s != []
    ensures multiset(s[1..]) == multiset(s) - multiset{s[0]}
    ensures multiset(Starts(s)) == multiset(Starts(s[1..])) + multiset{s[0].x}
  {
    assert s == [s[0]] + s[1..];
  }

  /** Reordering the edges reorders their `x` values the same way. */
  lemma {:induction false} StartsPermutation(s: seq<Edge>, t: seq<Edge>)
    requires multiset(s) == multiset(t)
    ensures multiset(Starts(s)) == multiset(Starts(t))
    decreases |s|
  {
    if s == [] {
      assert |t| == |multiset(t)| == 0;
    } else {
      assert s[0] in multiset(t) by { assert s[0] in multiset(s); }
      var j :| 0 <= j < |t| && t[j] == s[0];
      var rest := t[..j] + t[j + 1..];
      RemoveFirst(s);
      RemoveAt(t, j);
      StartsRemoveAt(t, j);
      assert multiset(s[1..]) == multiset(rest);
      StartsPermutation(s[1..], rest);
    }
  }

  /**
   * `SortCommonIndicesByAdjacency`: fails unless there are as many matched
   * edges as indices in `common`; otherwise sorts the matched edges by
   * adjacency and returns their `x` values: the `x` values of the matched
   * edges, in an order whose first entry is the first matched edge's `x`.
   */
  function SortCommonIndicesByAdjacency(a: seq<Wing>, wings: seq<nat>, common: set<int>): (r: Option<seq<int>>)
    requires AllInArena(a, wings)
    ensures r.None? <==> |MatchedEdges(a, wings, common)| != |common|
    ensures r.Some? ==> |r.value| == |common|
    ensures r.Some? ==> forall k :: 0 <= k < |r.value| ==> r.value[k] in common
    ensures r.Some? && |common| > 0 ==> r.value[0] == MatchedEdges(a, wings, common)[0].x
    ensures r.Some? ==> multiset(r.value) == multiset(Starts(MatchedEdges(a, wings, common)))
  {
    var matches := MatchedEdges(a, wings, common);
    if |matches| != |common| then None
    else
      var sorted := SortByAdjacency(matches);
      assert forall k :: 0 <= k < |sorted| ==> sorted[k].x in common by {
        forall k | 0 <= k < |sorted| ensures sorted[k].x in common {
          assert sorted[k] in multiset(matches);
        }
      }
      StartsPermutation(sorted, matches);
      Some(Starts(sorted))
  }

  /** When the matched edges already run head to tail over distinct vertices, the loop comes back in that order. */
  lemma SortCommonIndicesKeepsLoop(a: seq<Wing>, wings: seq<nat>, common: set<int>)
    requires AllInArena(a, wings)
    requires |MatchedEdges(a, wings, common)| == |common|
    requires HeadToTail(MatchedEdges(a, wings, common)) && DistinctStarts(MatchedEdges(a, wings, common))
    ensures SortCommonIndicesByAdjacency(a, wings, common) == Some(Starts(MatchedEdges(a, wings, common)))
  {
    SortKeepsCycle(MatchedEdges(a, wings, common));
  }

  /**
   * When the matched edges, in whatever order, are the edges of a head-to-tail
   * loop `c` over distinct vertices that starts with the first matched edge,
   * the result is the complete path of `c`'s vertices in loop order.
   */
  lemma SortCommonIndicesFindsLoop(a: seq<Wing>, wings: seq<nat>, common: set<int>, c: seq<Edge>)
    requires AllInArena(a, wings)
    requires |MatchedEdges(a, wings, common)| == |common|
    requires HeadToTail(c) && DistinctStarts(c)
    requires multiset(MatchedEdges(a, wings, common)) == multiset(c)
    requires |common| > 0 ==> |c| > 0 && MatchedEdges(a, wings, common)[0] == c[0]
    ensures SortCommonIndicesByAdjacency(a, wings, common) == Some(Starts(c))
  {
    SortArrangesCycle(MatchedEdges(a, wings, common), c);
  }

  /** When the counts agree, the result is the starts of the sorted matched edges. */
  lemma SortCommonIndicesCounted(a: seq<Wing>, wings: seq<nat>, common: set<int>, m: seq<Edge>, r: seq<int>)
    requires AllInArena(a, wings)
    requires MatchedEdges(a, wings, common) == m && |m| == |common| && Starts(SortByAdjacency(m)) == r
    ensures SortCommonIndicesByAdjacency(a, wings, common) == Some(r)
  {
  }

  /** A lone node whose common and local edge are both `(x, y)`. */
  function Spoke(x: int, y: int): Wing {
    Wing(EdgeLookup(Edge(x, y), Edge(x, y)), 0, None, None, None)
  }

  /** Two separate edges `{k, k + 1}` and `{k + 2, k + 3}`, each seen from both sides. */
  function TwoEdges(k: int): seq<Wing> {
    [Spoke(k, k + 1), Spoke(k + 1, k), Spoke(k + 2, k + 3), Spoke(k + 3, k + 2)]
  }

  lemma ThreeIndices(k: int)
    ensures |{k, k + 1, k + 2}| == 3
  {
    assert {k, k + 1} == {k} + {k + 1};
    assert {k, k + 1, k + 2} == {k, k + 1} + {k + 2};
  }

  lemma FourIndices(k: int)
    ensures |{k, k + 1, k + 2, k + 3}| == 4
  {
    ThreeIndices(k);
    assert {k, k + 1, k + 2, k + 3} == {k, k + 1, k + 2} + {k + 3};
  }

  lemma TwoEdgesMatched(k: int)
    ensures AllInArena(TwoEdges(k), [0, 1, 2, 3])
    ensures MatchedEdges(TwoEdges(k), [0, 1, 2, 3], {k, k + 1, k + 2, k + 3}) ==
            [Edge(k, k + 1), Edge(k + 1, k), Edge(k + 2, k + 3), Edge(k + 3, k + 2)]
  {
    var a, common := TwoEdges(k), {k, k + 1, k + 2, k + 3};
    assert [0, 1, 2, 3][..3] == [0, 1, 2] && [0, 1, 2][..2] == [0, 1] && [0, 1][..1] == [0] && [0][..0] == [];
    assert MatchedEdges(a, [0], common) == [Edge(k, k + 1)];
    assert MatchedEdges(a, [0, 1], common) == [Edge(k, k + 1), Edge(k + 1, k)];
    assert MatchedEdges(a, [0, 1, 2], common) == [Edge(k, k + 1), Edge(k + 1, k), Edge(k + 2, k + 3)];
  }

  lemma TwoEdgesUnsorted(k: int)
    ensures SortByAdjacency([Edge(k, k + 1), Edge(k + 1, k), Edge(k + 2, k + 3), Edge(k + 3, k + 2)]) ==
            [Edge(k, k + 1), Edge(k + 1, k), Edge(k + 2, k + 3), Edge(k + 3, k + 2)]
  {
    var m := [Edge(k, k + 1), Edge(k + 1, k), Edge(k + 2, k + 3), Edge(k + 3, k + 2)];
    TwoEdgesFirstPass(k);
    assert OuterPass(m, 1) == OuterPass(m, 2);
    assert InnerPass(m, 2, k, 3) == InnerPass(m, 2, k, 4) == m;
    assert OuterPass(m, 2) == OuterPass(m, 3);
    assert InnerPass(m, 3, k + 3, 4) == m;
    assert OuterPass(m, 3) == OuterPass(m, 4) == m;
  }

  lemma TwoEdgesFirstPass(k: int)
    ensures InnerPass([Edge(k, k + 1), Edge(k + 1, k), Edge(k + 2, k + 3), Edge(k + 3, k + 2)], 1, k + 1, 2) ==
            [Edge(k, k + 1), Edge(k + 1, k), Edge(k + 2, k + 3), Edge(k + 3, k + 2)]
  {
    var m := [Edge(k, k + 1), Edge(k + 1, k), Edge(k + 2, k + 3), Edge(k + 3, k + 2)];
    assert InnerPass(m, 1, k + 1, 2) == InnerPass(m, 1, k + 1, 3) == InnerPass(m, 1, k + 1, 4) == m;
  }

  /**
   * The count check accepts what is not a loop: two separate edges, each seen
   * from both of its faces, give four matched edges for four indices, and the
   * result lists all four although no listed node joins `k + 1` to `k + 2`.
   */
  lemma CountCheckAcceptsNoPath(k: int)
    ensures SortCommonIndicesByAdjacency(TwoEdges(k), [0, 1, 2, 3], {k, k + 1, k + 2, k + 3}) ==
            Some([k, k + 1, k + 2, k + 3])
    ensures forall i :: 0 <= i < 4 ==> !SameEdge(TwoEdges(k)[i].edge.common, Edge(k + 1, k + 2))
  {
    var m := [Edge(k, k + 1), Edge(k + 1, k), Edge(k + 2, k + 3), Edge(k + 3, k + 2)];
    TwoEdgesMatched(k);
    TwoEdgesUnsorted(k);
    FourIndices(k);
    FourStarts(k);
    SortCommonIndicesCounted(TwoEdges(k), [0, 1, 2, 3], {k, k + 1, k + 2, k + 3}, m, [k, k + 1, k + 2, k + 3]);
    TwoEdgesNeverJoin(k);
  }

  lemma TwoEdgesNeverJoin(k: int)
    ensures forall i :: 0 <= i < 4 ==> !SameEdge(TwoEdges(k)[i].edge.common, Edge(k + 1, k + 2))
  {
    var a := TwoEdges(k);
    assert a[0].edge.common == Edge(k, k + 1) && a[1].edge.common == Edge(k + 1, k);
    assert a[2].edge.common == Edge(k + 2, k + 3) && a[3].edge.common == Edge(k + 3, k + 2);
  }

  lemma FourStarts(k: int)
    ensures Starts([Edge(k, k + 1), Edge(k + 1, k), Edge(k + 2, k + 3), Edge(k + 3, k + 2)]) == [k, k + 1, k + 2, k + 3]
  {
    StartsPointwise([Edge(k, k + 1), Edge(k + 1, k), Edge(k + 2, k + 3), Edge(k + 3, k + 2)], [k, k + 1, k + 2, k + 3]);
  }

  /** A path `k, k + 1, k + 2` whose first edge is seen twice. */
  function DoubledEdge(k: int): seq<Wing> {
    [Spoke(k, k + 1), Spoke(k, k + 1), Spoke(k + 1, k + 2)]
  }

  lemma DoubledEdgeMatched(k: int)
    ensures AllInArena(DoubledEdge(k), [0, 1, 2])
    ensures MatchedEdges(DoubledEdge(k), [0, 1, 2], {k, k + 1, k + 2}) == [Edge(k, k + 1), Edge(k, k + 1), Edge(k + 1, k + 2)]
  {
    var a, common := DoubledEdge(k), {k, k + 1, k + 2};
    assert [0, 1, 2][..2] == [0, 1] && [0, 1][..1] == [0] && [0][..0] == [];
    assert MatchedEdges(a, [0], common) == [Edge(k, k + 1)];
    assert MatchedEdges(a, [0, 1], common) == [Edge(k, k + 1), Edge(k, k + 1)];
  }

  lemma DoubledEdgeSorted(k: int)
    ensures SortByAdjacency([Edge(k, k + 1), Edge(k, k + 1), Edge(k + 1, k + 2)]) ==
            [Edge(k, k + 1), Edge(k + 1, k + 2), Edge(k, k + 1)]
  {
    var m := [Edge(k, k + 1), Edge(k, k + 1), Edge(k + 1, k + 2)];
    var m1 := [Edge(k, k + 1), Edge(k + 1, k + 2), Edge(k, k + 1)];
    assert m[2 := m[1]][1 := m[2]] == m1;
    assert InnerPass(m, 1, k + 1, 2) == InnerPass(m1, 1, k + 1, 3) == m1;
    assert OuterPass(m, 1) == OuterPass(m1, 2);
    assert InnerPass(m1, 2, k + 2, 3) == m1;
    assert OuterPass(m1, 2) == OuterPass(m1, 3) == m1;
  }

  /**
   * A non-null result need not even list each index once: with the edge
   * `{k, k + 1}` seen twice, the indices `k, k + 1, k + 2` give `k, k + 1, k`,
   * and `k + 2` is missing.
   */
  lemma CountCheckAcceptsRepeats(k: int)
    ensures SortCommonIndicesByAdjacency(DoubledEdge(k), [0, 1, 2], {k, k + 1, k + 2}) == Some([k, k + 1, k])
    ensures k + 2 in {k, k + 1, k + 2} && k + 2 !in [k, k + 1, k]
  {
    DoubledEdgeMatched(k);
    DoubledEdgeSorted(k);
    ThreeIndices(k);
    ThreeStarts(k);
    SortCommonIndicesCounted(DoubledEdge(k), [0, 1, 2], {k, k + 1, k + 2},
      [Edge(k, k + 1), Edge(k, k + 1), Edge(k + 1, k + 2)], [k, k + 1, k]);
  }

  lemma ThreeStarts(k: int)
    ensures Starts([Edge(k, k + 1), Edge(k + 1, k + 2), Edge(k, k + 1)]) == [k, k + 1, k]
  {
    StartsPointwise([Edge(k, k + 1), Edge(k + 1, k + 2), Edge(k, k + 1)], [k, k + 1, k]);
  }

  /** A node whose both common endpoints are in `common` contributes its edge to the matched list. */
  lemma {:induction false} MatchedEdgesExactly(a: seq<Wing>, wings: seq<nat>, common: set<int>, e: Edge)
    requires AllInArena(a, wings)
    ensures e in MatchedEdges(a, wings, common) <==>
              e.x in common && e.y in common &&
              exists i :: 0 <= i < |wings| && a[wings[i]].edge.common == e
  {
    if wings != [] {
      var init := wings[..|wings| - 1];
      MatchedEdgesExactly(a, init, common, e);
      if exists i :: 0 <= i < |init| && a[init[i]].edge.common == e {
        var i :| 0 <= i < |init| && a[init[i]].edge.common == e;
        assert wings[i] == init[i];
      }
      if exists i :: 0 <= i < |wings| && a[wings[i]].edge.common == e {
        var i :| 0 <= i < |wings| && a[wings[i]].edge.common == e;
        if i < |init| {
          assert init[i] == wings[i];
        }
      }
    }
  }
}
