/**
 * `pb_WingedEdge.MakeQuad`: fuse two triangle loops that share one edge into
 * the four local indices of a quad.
 *
 * The specification mirrors the method's three phases: `Marks`/`MatchCount`
 * (which of the six edges found a partner), `Unmatched` (the edges left over)
 * and `QuadFrom` (threading the quad through shared common vertices).
 */
module Quad {
  import opened Wrappers
  import opened Edges
  import opened Wings

  /** The edge lookups of `w`, `w.next` and `w.next.next` on a loop of three. */
  function TriangleEdges(a: seq<Wing>, w: nat): (r: seq<EdgeLookup>)
    requires Closed(a) && w < |a| && IsLoopOfLength(a, w, 3)
    ensures |r| == 3
    ensures forall k :: 0 <= k < 3 ==> Iter(a, w, k).Some? && r[k] == a[Iter(a, w, k).value].edge
  {
    assert !Stops(a, w, 1) && !Stops(a, w, 2);
    assert Iter(a, w, 1) == a[w].next;
    assert Iter(a, w, 2) == a[a[w].next.value].next;
    var n1 := a[w].next.value;
    var n2 := a[n1].next.value;
    [a[w].edge, a[n1].edge, a[n2].edge]
  }

  /** The first right-triangle slot `m` in `n..5` whose edge equals edge `i`. */
  function FirstMatch(all: seq<EdgeLookup>, i: nat, n: nat): (r: Option<nat>)
    requires |all| == 6 && i < 6 && 3 <= n <= 6
    ensures r.None? <==> forall m :: n <= m < 6 ==> !SameLookup(all[i], all[m])
    ensures r.Some? ==> n <= r.value < 6 && SameLookup(all[i], all[r.value]) &&
                        forall m :: n <= m < r.value ==> !SameLookup(all[i], all[m])
    decreases 6 - n
  {
    if n == 6 then None
    else if SameLookup(all[i], all[n]) then Some(n)
    else FirstMatch(all, i, n + 1)
  }

  /** The `dup` marks after the first `i` left edges have looked for a partner. */
  function Marks(all: seq<EdgeLookup>, i: nat): (r: seq<int>)
    requires |all| == 6 && i <= 3
    ensures |r| == 6
  {
    if i == 0 then [0, 0, 0, 0, 0, 0]
    else match FirstMatch(all, i - 1, 3)
      case None => Marks(all, i - 1)
      case Some(n) => Marks(all, i - 1)[i - 1 := 1][n := 1]
  }

  /** How many of the first `i` left edges equal some right edge. */
  function MatchCount(all: seq<EdgeLookup>, i: nat): (r: nat)
    requires |all| == 6 && i <= 3
    ensures r <= i
  {
    if i == 0 then 0
    else MatchCount(all, i - 1) + (if FirstMatch(all, i - 1, 3).Some? then 1 else 0)
  }

  /** The edges of `all` whose mark is still 0, in order. */
  function Unmatched(all: seq<EdgeLookup>, marks: seq<int>): (r: seq<EdgeLookup>)
    requires |all| == |marks|
  {
    if all == [] then []
    else (if marks[0] < 1 then [all[0]] else []) + Unmatched(all[1..], marks[1..])
  }

  /** How many marks are still 0. */
  function Unmarked(marks: seq<int>): nat {
    if marks == [] then 0 else (if marks[0] < 1 then 1 else 0) + Unmarked(marks[1..])
  }

  lemma {:induction false} UnmarkedSet(marks: seq<int>, k: nat)
    requires k < |marks|
    ensures Unmarked(marks[k := 1]) == Unmarked(marks) - (if marks[k] < 1 then 1 else 0)
  {
    if k > 0 {
      assert marks[k := 1][1..] == marks[1..][k - 1 := 1];
      UnmarkedSet(marks[1..], k - 1);
    }
  }

  lemma {:induction false} UnmatchedLength(all: seq<EdgeLookup>, marks: seq<int>)
    requires |all| == |marks|
    ensures |Unmatched(all, marks)| == Unmarked(marks)
  {
    if all != [] {
      UnmatchedLength(all[1..], marks[1..]);
    }
  }

  /** The one left edge `i` that found a partner, and that partner `n`. */
  lemma OneMatchAt(all: seq<EdgeLookup>) returns (i: nat, n: nat)
    requires |all| == 6 && MatchCount(all, 3) == 1
    ensures 0 <= i < 3 <= n < 6 && SameLookup(all[i], all[n]) && FirstMatch(all, i, 3) == Some(n)
    ensures Marks(all, 3) == [0, 0, 0, 0, 0, 0][i := 1][n := 1]
    ensures forall k, m :: 0 <= k < 3 && k != i && 3 <= m < 6 ==> !SameLookup(all[k], all[m])
  {
    var f0, f1, f2 := FirstMatch(all, 0, 3), FirstMatch(all, 1, 3), FirstMatch(all, 2, 3);
    assert MatchCount(all, 1) == (if f0.Some? then 1 else 0);
    assert MatchCount(all, 2) == MatchCount(all, 1) + (if f1.Some? then 1 else 0);
    assert MatchCount(all, 3) == MatchCount(all, 2) + (if f2.Some? then 1 else 0);
    assert Marks(all, 1) == if f0.Some? then [0, 0, 0, 0, 0, 0][0 := 1][f0.value := 1] else [0, 0, 0, 0, 0, 0];
    assert Marks(all, 2) == if f1.Some? then Marks(all, 1)[1 := 1][f1.value := 1] else Marks(all, 1);
    assert Marks(all, 3) == if f2.Some? then Marks(all, 2)[2 := 1][f2.value := 1] else Marks(all, 2);
    if f0.Some? {
      i, n := 0, f0.value;
    } else if f1.Some? {
      i, n := 1, f1.value;
    } else {
      i, n := 2, f2.value;
    }
  }

  /**
   * When exactly one left edge found a partner, exactly that edge and its
   * first partner are marked, no other left edge equals any right edge, and
   * exactly four edges are left to fill `edges[0..3]`.
   */
  lemma OneMatchLeavesFour(all: seq<EdgeLookup>)
    requires |all| == 6 && MatchCount(all, 3) == 1
    ensures exists i, n :: 0 <= i < 3 <= n < 6 && SameLookup(all[i], all[n]) &&
              Marks(all, 3) == [0, 0, 0, 0, 0, 0][i := 1][n := 1] &&
              forall k, m :: 0 <= k < 3 && k != i && 3 <= m < 6 ==> !SameLookup(all[k], all[m])
    ensures |Unmatched(all, Marks(all, 3))| == 4
  {
    var i, n := OneMatchAt(all);
    var marks := [0, 0, 0, 0, 0, 0][i := 1][n := 1];
    UnmatchedLength(all, marks);
    UnmarkedSet([0, 0, 0, 0, 0, 0], i);
    UnmarkedSet([0, 0, 0, 0, 0, 0][i := 1], n);
  }

  /**
   * The final phase on the four unmatched edges: start with `edges[0]`, then
   * the `local.y` of the first of `edges[1..3]` that starts (by common index)
   * where `edges[0]` ends, then the same once more; fail if either is missing.
   */
  function QuadFrom(e: seq<EdgeLookup>): (r: Option<seq<int>>)
    requires |e| == 4
    ensures r.Some? ==> |r.value| == 4 && r.value[0] == e[0].local.x && r.value[1] == e[0].local.y
    ensures r.Some? ==> r.value[2] != -1 && r.value[3] != -1
    ensures r.Some? ==>
      exists j, l :: 1 <= j < 4 && 1 <= l < 4 &&
        e[j].common.x == e[0].common.y && r.value[2] == e[j].local.y &&
        e[l].common.x == e[j].common.y && r.value[3] == e[l].local.y
  {
    var c1 := e[0].common.y;
    var (third, c2) :=
      if e[1].common.x == c1 then (e[1].local.y, e[1].common.y)
      else if e[2].common.x == c1 then (e[2].local.y, e[2].common.y)
      else if e[3].common.x == c1 then (e[3].local.y, e[3].common.y)
      else (-1, -1);
    var fourth :=
      if e[1].common.x == c2 then e[1].local.y
      else if e[2].common.x == c2 then e[2].local.y
      else if e[3].common.x == c2 then e[3].local.y
      else -1;
    if third == -1 || fourth == -1 then None
    else Some([e[0].local.x, e[0].local.y, third, fourth])
  }

  /** What `MakeQuad` returns for two triangles whose six edges are `all`. */
  function QuadSpec(all: seq<EdgeLookup>): (r: Option<seq<int>>)
    requires |all| == 6
    ensures MatchCount(all, 3) != 1 ==> r.None?
    ensures r.Some? ==> |r.value| == 4 && r.value[2] != -1 && r.value[3] != -1
  {
    if MatchCount(all, 3) != 1 then None
    else
      OneMatchLeavesFour(all);
      QuadFrom(Unmatched(all, Marks(all, 3)))
  }

  /** `MakeQuad(left, right)`. */
  method MakeQuad(a: seq<Wing>, left: nat, right: nat) returns (quad: Option<seq<int>>)
    requires Closed(a) && left < |a| && right < |a|
    requires LoopEnds(a, left) && (IsLoopOfLength(a, left, 3) ==> LoopEnds(a, right))
    ensures !(IsLoopOfLength(a, left, 3) && IsLoopOfLength(a, right, 3)) ==> quad.None?
    ensures IsLoopOfLength(a, left, 3) && IsLoopOfLength(a, right, 3) ==>
              quad == QuadSpec(TriangleEdges(a, left) + TriangleEdges(a, right))
  {
    var leftCount := Count(a, left);
    if leftCount != 3 {
      return None;
    }
    var rightCount := Count(a, right);
    if rightCount != 3 {
      return None;
    }

    var all := TriangleEdges(a, left) + TriangleEdges(a, right);
    var dup, matches := MarkMatches(all);
    if matches != 1 {
      return None;
    }
    OneMatchLeavesFour(all);
    var edges := CollectUnmatched(all, dup);
    quad := ThreadQuad(edges);
  }

  /** The first phase of `MakeQuad`: each left edge marks itself and its first equal right edge. */
  method MarkMatches(all: seq<EdgeLookup>) returns (dup: array<int>, matches: nat)
    requires |all| == 6
    ensures fresh(dup)
    ensures dup[..] == Marks(all, 3) && matches == MatchCount(all, 3)
  {
    dup := new int[6](_ => 0);
    matches := 0;
    for i := 0 to 3
      invariant dup[..] == Marks(all, i)
      invariant matches == MatchCount(all, i)
    {
      var n := 3;
      while n < 6
        invariant 3 <= n <= 6
        invariant FirstMatch(all, i, n) == FirstMatch(all, i, 3)
        invariant dup[..] == Marks(all, i)
        invariant matches == MatchCount(all, i)
      {
        if SameLookup(all[i], all[n]) {
          matches := matches + 1;
          dup[i] := 1;
          dup[n] := 1;
          break;
        }
        n := n + 1;
      }
    }
  }

  /** The second phase of `MakeQuad`: copy the unmarked edges, in order, into `edges[0..3]`. */
  method CollectUnmatched(all: seq<EdgeLookup>, dup: array<int>) returns (edges: array<EdgeLookup>)
    requires |all| == 6 && dup.Length == 6
    requires |Unmatched(all, dup[..])| == 4
    ensures fresh(edges)
    ensures edges[..] == Unmatched(all, dup[..])
  {
    var qi := 0;
    edges := new EdgeLookup[4];
    ghost var marks := dup[..];
    for i := 0 to 6
      invariant 0 <= qi <= 4
      invariant edges[..qi] + Unmatched(all[i..], marks[i..]) == Unmatched(all, marks)
    {
      ghost var done := edges[..qi];
      UnmatchedNext(all, marks, i, done, Unmatched(all, marks));
      if dup[i] < 1 {
        edges[qi] := all[i];
        assert edges[..qi + 1] == done + [all[i]];
        qi := qi + 1;
      }
    }
    assert edges[..] == edges[..qi];
  }

  /** `Unmatched` of a non-empty list: its first edge when unmarked, then the rest. */
  lemma UnmatchedFirst(all: seq<EdgeLookup>, marks: seq<int>)
    requires |all| == |marks| && |all| > 0
    ensures Unmatched(all, marks) == (if marks[0] < 1 then [all[0]] else []) + Unmatched(all[1..], marks[1..])
  {
  }

  /** One slot of `Unmatched`: the edges collected before slot `i`, with `all[i]` when it is unmarked, then the rest. */
  lemma UnmatchedNext(all: seq<EdgeLookup>, marks: seq<int>, i: nat, done: seq<EdgeLookup>, whole: seq<EdgeLookup>)
    requires |all| == |marks| && i < |all|
    requires done + Unmatched(all[i..], marks[i..]) == whole
    ensures (if marks[i] < 1 then done + [all[i]] else done) + Unmatched(all[i + 1..], marks[i + 1..]) == whole
  {
    var rest := Unmatched(all[i + 1..], marks[i + 1..]);
    var head := if marks[i] < 1 then [all[i]] else [];
    UnmatchedFirst(all[i..], marks[i..]);
    assert all[i..][1..] == all[i + 1..] && marks[i..][1..] == marks[i + 1..];
    assert done + (head + rest) == (done + head) + rest;
  }

  /** The last phase of `MakeQuad`: thread the quad's indices through shared common vertices. */
  method ThreadQuad(edges: array<EdgeLookup>) returns (quad: Option<seq<int>>)
    requires edges.Length == 4
    ensures quad == QuadFrom(edges[..])
  {
    var q := new int[4];
    q[0], q[1], q[2], q[3] := edges[0].local.x, edges[0].local.y, -1, -1;

    var c1, c2 := edges[0].common.y, -1;
    if edges[1].common.x == c1 {
      q[2] := edges[1].local.y;
      c2 := edges[1].common.y;
    } else if edges[2].common.x == c1 {
      q[2] := edges[2].local.y;
      c2 := edges[2].common.y;
    } else if edges[3].common.x == c1 {
      q[2] := edges[3].local.y;
      c2 := edges[3].common.y;
    }

    if edges[1].common.x == c2 {
      q[3] := edges[1].local.y;
    } else if edges[2].common.x == c2 {
      q[3] := edges[2].local.y;
    } else if edges[3].common.x == c2 {
      q[3] := edges[3].local.y;
    }

    assert q[0] == edges[..][0].local.x && q[1] == edges[..][0].local.y;
    if q[2] == -1 || q[3] == -1 {
      return None;
    }
    assert q[..] == [q[0], q[1], q[2], q[3]];
    return Some(q[..]);
  }

  /**
   * A unit quad split along its diagonal into (0, 1, 2) and (0, 2, 3), with
   * the identity weld: the shared edge {0, 2} is found and the quad comes back
   * as the 4-cycle 0, 1, 2, 3.
   */
  lemma SplitQuadRejoins()
    ensures QuadSpec([
      EdgeLookup(Edge(0, 1), Edge(0, 1)), EdgeLookup(Edge(1, 2), Edge(1, 2)), EdgeLookup(Edge(2, 0), Edge(2, 0)),
      EdgeLookup(Edge(0, 2), Edge(0, 2)), EdgeLookup(Edge(2, 3), Edge(2, 3)), EdgeLookup(Edge(3, 0), Edge(3, 0))])
      == Some([0, 1, 2, 3])
  {
    var all := [
      EdgeLookup(Edge(0, 1), Edge(0, 1)), EdgeLookup(Edge(1, 2), Edge(1, 2)), EdgeLookup(Edge(2, 0), Edge(2, 0)),
      EdgeLookup(Edge(0, 2), Edge(0, 2)), EdgeLookup(Edge(2, 3), Edge(2, 3)), EdgeLookup(Edge(3, 0), Edge(3, 0))];
    assert FirstMatch(all, 0, 3) == None;
    assert FirstMatch(all, 1, 3) == None;
    assert FirstMatch(all, 2, 3) == Some(3);
    assert MatchCount(all, 3) == 1;
    assert Marks(all, 3) == [0, 0, 1, 1, 0, 0];
    assert Unmatched(all, [0, 0, 1, 1, 0, 0]) == [all[0], all[1], all[4], all[5]];
  }

  /** Two triangles over the same three vertices share every edge: no quad. */
  lemma SameTriangleTwiceFails()
    ensures QuadSpec([
      EdgeLookup(Edge(0, 1), Edge(0, 1)), EdgeLookup(Edge(1, 2), Edge(1, 2)), EdgeLookup(Edge(2, 0), Edge(2, 0)),
      EdgeLookup(Edge(0, 2), Edge(3, 5)), EdgeLookup(Edge(2, 1), Edge(5, 4)), EdgeLookup(Edge(1, 0), Edge(4, 3))])
      == None
  {
    var all := [
      EdgeLookup(Edge(0, 1), Edge(0, 1)), EdgeLookup(Edge(1, 2), Edge(1, 2)), EdgeLookup(Edge(2, 0), Edge(2, 0)),
      EdgeLookup(Edge(0, 2), Edge(3, 5)), EdgeLookup(Edge(2, 1), Edge(5, 4)), EdgeLookup(Edge(1, 0), Edge(4, 3))];
    assert FirstMatch(all, 0, 3).Some? by { assert SameLookup(all[0], all[5]); }
    assert FirstMatch(all, 1, 3).Some? by { assert SameLookup(all[1], all[4]); }
    assert MatchCount(all, 3) >= 2;
  }

  /** The edges of the triangle `u, v, w`, walked from `u`. */
  function Ring(u: int, v: int, w: int): seq<Edge> {
    [Edge(u, v), Edge(v, w), Edge(w, u)]
  }

  /** The common edges of the three lookups `t` are `ring`, entered `a` places in. */
  predicate RingFrom(t: seq<EdgeLookup>, ring: seq<Edge>, a: nat)
    requires |ring| == 3
  {
    |t| == 3 && a < 3 && forall k :: 0 <= k < 3 ==> t[k].common == ring[(k + a) % 3]
  }

  /**
   * Each lookup's common edge is the weld of its local edge, as the builder
   * makes them, and local indices are vertex indices.
   */
  predicate WeldedLocals(t: seq<EdgeLookup>, weld: map<int, int>) {
    forall k :: 0 <= k < |t| ==>
      0 <= t[k].local.x && 0 <= t[k].local.y && t[k].local.x in weld && t[k].local.y in weld &&
      t[k].common == Edge(weld[t[k].local.x], weld[t[k].local.y])
  }

  /** When left edge `i0` and right edge `n0` are the only equal pair, they are the only marks. */
  lemma OnlyPairMatches(all: seq<EdgeLookup>, i0: nat, n0: nat)
    requires |all| == 6 && i0 < 3 <= n0 < 6
    requires forall i, m :: 0 <= i < 3 <= m < 6 ==> (SameLookup(all[i], all[m]) <==> i == i0 && m == n0)
    ensures MatchCount(all, 3) == 1
    ensures Marks(all, 3) == [0, 0, 0, 0, 0, 0][i0 := 1][n0 := 1]
  {
    assert FirstMatch(all, 0, 3) == if i0 == 0 then Some(n0) else None;
    assert FirstMatch(all, 1, 3) == if i0 == 1 then Some(n0) else None;
    assert FirstMatch(all, 2, 3) == if i0 == 2 then Some(n0) else None;
    var none := [0, 0, 0, 0, 0, 0];
    assert MatchCount(all, 1) == if i0 == 0 then 1 else 0;
    assert MatchCount(all, 2) == if i0 <= 1 then 1 else 0;
    assert Marks(all, 1) == if i0 == 0 then none[0 := 1][n0 := 1] else none;
    assert Marks(all, 2) == if i0 == 1 then none[1 := 1][n0 := 1] else Marks(all, 1);
  }

  /** `Unmatched` splits over a concatenation of edges and marks alike. */
  lemma {:induction false} UnmatchedConcat(x: seq<EdgeLookup>, y: seq<EdgeLookup>, m: seq<int>, n: seq<int>)
    requires |x| == |m| && |y| == |n|
    ensures Unmatched(x + y, m + n) == Unmatched(x, m) + Unmatched(y, n)
    decreases |x|
  {
    if x == [] {
      assert x + y == y && m + n == n;
    } else {
      assert (x + y)[1..] == x[1..] + y && (m + n)[1..] == m[1..] + n;
      UnmatchedConcat(x[1..], y, m[1..], n);
    }
  }

  /** Of three edges with one marked, the other two remain in order. */
  lemma UnmatchedThree(t: seq<EdgeLookup>, i: nat)
    requires |t| == 3 && i < 3
    ensures Unmatched(t, [0, 0, 0][i := 1]) == t[..i] + t[i + 1..]
  {
    var m := [0, 0, 0][i := 1];
    assert t[1..][1..] == t[2..] && m[1..][1..] == m[2..];
    assert t[2..][1..] == [] && m[2..][1..] == [];
    assert Unmatched(t[2..], m[2..]) == if m[2] < 1 then [t[2]] else [];
  }

  /**
   * The rings `p, q, r` and `q, p, s` of two distinct-vertex triangles share
   * exactly one edge, `{p, q}`; entered `a` and `b` places in, that edge sits
   * at `(3 - a) % 3` and `(3 - b) % 3`.
   */
  lemma RingsMeetOnce(left: seq<EdgeLookup>, right: seq<EdgeLookup>, p: int, q: int, r: int, s: int, a: nat, b: nat)
    requires p != q && p != r && p != s && q != r && q != s && r != s
    requires RingFrom(left, Ring(p, q, r), a) && RingFrom(right, Ring(q, p, s), b)
    ensures forall i, j :: 0 <= i < 3 && 0 <= j < 3 ==>
      (SameLookup(left[i], right[j]) <==> i == (3 - a) % 3 && j == (3 - b) % 3)
  {
    forall i, j | 0 <= i < 3 && 0 <= j < 3
      ensures SameLookup(left[i], right[j]) <==> i == (3 - a) % 3 && j == (3 - b) % 3
    {
      assert left[i].common == Ring(p, q, r)[(i + a) % 3];
      assert right[j].common == Ring(q, p, s)[(j + b) % 3];
    }
  }

  /**
   * Two adjacent triangles make a quad. The left triangle runs `p, q, r` and
   * the right one `q, p, s` (opposite windings, so they share the edge
   * `{p, q}` and nothing else), each entered at any of its three edges, and
   * every lookup is welded from its local edge. Then `MakeQuad` succeeds, and
   * its four local indices weld to the quad `q, r, p, s` read round from the
   * first left edge that is not shared.
   */
  lemma AdjacentTrianglesMakeQuad(left: seq<EdgeLookup>, right: seq<EdgeLookup>, weld: map<int, int>,
                                  p: int, q: int, r: int, s: int, a: nat, b: nat)
    requires p != q && p != r && p != s && q != r && q != s && r != s
    requires RingFrom(left, Ring(p, q, r), a) && RingFrom(right, Ring(q, p, s), b)
    requires WeldedLocals(left + right, weld)
    ensures QuadSpec(left + right).Some?
    ensures var v := QuadSpec(left + right).value;
            v[0] in weld && v[1] in weld && v[2] in weld && v[3] in weld &&
            [weld[v[0]], weld[v[1]], weld[v[2]], weld[v[3]]] == if a == 2 then [r, p, s, q] else [q, r, p, s]
  {
    var i0, j0 := (3 - a) % 3, (3 - b) % 3;
    RingsMeetOnce(left, right, p, q, r, s, a, b);
    OneSharedEdgeLeavesFour(left, right, i0, j0);
    WeldedFour(left, right, weld, i0, j0);
    RingWithoutShared(left, Ring(p, q, r), a);
    RingWithoutShared(right, Ring(q, p, s), b);
    QuadOfFour(left[..i0] + left[i0 + 1..] + (right[..j0] + right[j0 + 1..]), weld, p, q, r, s, a == 2, b == 2);
  }

  /**
   * When left edge `i0` and right edge `j0` are the only equal pair across two
   * triangles, exactly one match is found and the other four edges are left,
   * each triangle's in its own order.
   */
  lemma OneSharedEdgeLeavesFour(left: seq<EdgeLookup>, right: seq<EdgeLookup>, i0: nat, j0: nat)
    requires |left| == 3 && |right| == 3 && i0 < 3 && j0 < 3
    requires forall i, j :: 0 <= i < 3 && 0 <= j < 3 ==> (SameLookup(left[i], right[j]) <==> i == i0 && j == j0)
    ensures MatchCount(left + right, 3) == 1
    ensures Unmatched(left + right, Marks(left + right, 3)) == left[..i0] + left[i0 + 1..] + (right[..j0] + right[j0 + 1..])
  {
    var all := left + right;
    forall i, m | 0 <= i < 3 <= m < 6
      ensures SameLookup(all[i], all[m]) <==> i == i0 && m == 3 + j0
    {
      assert all[i] == left[i] && all[m] == right[m - 3];
    }
    OnlyPairMatches(all, i0, 3 + j0);
    assert [0, 0, 0, 0, 0, 0][i0 := 1][3 + j0 := 1] == [0, 0, 0][i0 := 1] + [0, 0, 0][j0 := 1];
    UnmatchedConcat(left, right, [0, 0, 0][i0 := 1], [0, 0, 0][j0 := 1]);
    UnmatchedThree(left, i0);
    UnmatchedThree(right, j0);
  }

  /**
   * `QuadFrom` on the four unshared edges of the triangles `p, q, r` and
   * `q, p, s`, the left pair as `(q, r), (r, p)` or swapped (`leftSwapped`),
   * the right pair as `(p, s), (s, q)` or swapped: it threads `q, r, p, s`
   * from `(q, r)`, or `r, p, s, q` from `(r, p)`.
   */
  lemma QuadOfFour(e: seq<EdgeLookup>, weld: map<int, int>, p: int, q: int, r: int, s: int,
                   leftSwapped: bool, rightSwapped: bool)
    requires p != q && p != r && p != s && q != r && q != s && r != s
    requires |e| == 4 && WeldedLocals(e, weld)
    requires e[0].common == (if leftSwapped then Edge(r, p) else Edge(q, r))
    requires e[1].common == (if leftSwapped then Edge(q, r) else Edge(r, p))
    requires e[2].common == (if rightSwapped then Edge(s, q) else Edge(p, s))
    requires e[3].common == (if rightSwapped then Edge(p, s) else Edge(s, q))
    ensures QuadFrom(e).Some?
    ensures var v := QuadFrom(e).value;
            v[0] in weld && v[1] in weld && v[2] in weld && v[3] in weld &&
            [weld[v[0]], weld[v[1]], weld[v[2]], weld[v[3]]] == if leftSwapped then [r, p, s, q] else [q, r, p, s]
  {
    assert 0 <= e[0].local.x && e[0].common == Edge(weld[e[0].local.x], weld[e[0].local.y]);
    assert 0 <= e[1].local.y && e[1].common == Edge(weld[e[1].local.x], weld[e[1].local.y]);
    assert 0 <= e[2].local.y && e[2].common == Edge(weld[e[2].local.x], weld[e[2].local.y]);
    assert 0 <= e[3].local.y && e[3].common == Edge(weld[e[3].local.x], weld[e[3].local.y]);
  }

  /**
   * A ring entered `a` places in, without its edge `ring[0]`: the two edges
   * left keep ring order unless the removed edge was the middle one.
   */
  lemma RingWithoutShared(t: seq<EdgeLookup>, ring: seq<Edge>, a: nat)
    requires |ring| == 3 && RingFrom(t, ring, a)
    ensures |t[..(3 - a) % 3] + t[(3 - a) % 3 + 1..]| == 2
    ensures (t[..(3 - a) % 3] + t[(3 - a) % 3 + 1..])[0].common == ring[if a == 2 then 2 else 1]
    ensures (t[..(3 - a) % 3] + t[(3 - a) % 3 + 1..])[1].common == ring[if a == 2 then 1 else 2]
  {
    assert t[0].common == ring[a % 3] && t[1].common == ring[(1 + a) % 3] && t[2].common == ring[(2 + a) % 3];
    if a == 0 {
      assert t[..0] + t[1..] == [t[1], t[2]];
    } else if a == 1 {
      assert t[..2] + t[3..] == [t[0], t[1]];
    } else {
      assert t[..1] + t[2..] == [t[0], t[2]];
    }
  }

  /** The four unmatched lookups are welded from their local edges, as all six are. */
  lemma WeldedFour(left: seq<EdgeLookup>, right: seq<EdgeLookup>, weld: map<int, int>, i0: nat, j0: nat)
    requires |left| == 3 && |right| == 3 && i0 < 3 && j0 < 3
    requires WeldedLocals(left + right, weld)
    ensures WeldedLocals(left[..i0] + left[i0 + 1..] + (right[..j0] + right[j0 + 1..]), weld)
  {
    var e := left[..i0] + left[i0 + 1..] + (right[..j0] + right[j0 + 1..]);
    forall k | 0 <= k < 4
      ensures 0 <= e[k].local.x && 0 <= e[k].local.y && e[k].local.x in weld && e[k].local.y in weld &&
              e[k].common == Edge(weld[e[k].local.x], weld[e[k].local.y])
    {
      var src := if k < 2 then (if k < i0 then k else k + 1) else 3 + (if k - 2 < j0 then k - 2 else k - 1);
      assert e[k] == (left + right)[src];
    }
  }
}
