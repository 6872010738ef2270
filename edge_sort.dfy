/**
 * `SortEdgesByAdjacency`: the in-place swap sort that orders a face's edges
 * so that, in the common case, each edge's `y` is the next edge's `x`.
 *
 * `SortByAdjacency` is the specification: `InnerPass` is the inner loop over
 * `n` (every later edge that touches `want` at either end is swapped into
 * slot `i`; there is no `break`), `OuterPass` is the outer loop over `i`.
 */
module EdgeSort {
  import opened Edges

  /** The inner loop for slot `i`, from position `n` on. */
  function InnerPass(s: seq<Edge>, i: nat, want: int, n: nat): (r: seq<Edge>)
    requires i < |s| && i < n
    ensures |r| == |s| && multiset(r) == multiset(s)
    ensures forall k :: 0 <= k < i ==> r[k] == s[k]
    decreases |s| - n
  {
    if n >= |s| then s
    else if s[n].x == want || s[n].y == want then
      var t := s[n := s[i]][i := s[n]];
      assert multiset(t) == multiset(s) by {
        assert t == s[i := s[n]][n := s[i]];
      }
      InnerPass(t, i, want, n + 1)
    else InnerPass(s, i, want, n + 1)
  }

  /** The outer loop, from slot `i` on; `want` is the `y` of the edge before slot `i`. */
  function OuterPass(s: seq<Edge>, i: nat): (r: seq<Edge>)
    requires 1 <= i
    ensures |r| == |s| && multiset(r) == multiset(s)
    ensures forall k :: 0 <= k < i && k < |s| ==> r[k] == s[k]
    decreases |s| - i
  {
    if i >= |s| then s
    else OuterPass(InnerPass(s, i, s[i - 1].y, i + 1), i + 1)
  }

  /** What `SortEdgesByAdjacency` leaves in the list: a permutation with the first edge fixed. */
  function SortByAdjacency(s: seq<Edge>): (r: seq<Edge>)
    ensures |r| == |s|
    ensures multiset(r) == multiset(s)
    ensures |s| > 0 ==> r[0] == s[0]
  {
    OuterPass(s, 1)
  }

  /** `SortEdgesByAdjacency(List<Edge>)`: sorts the list in place. */
  method SortEdgesByAdjacency(edges: array<Edge>)
    modifies edges
    ensures edges[..] == SortByAdjacency(old(edges[..]))
  {
    var i := 1;
    while i < edges.Length
      invariant 1 <= i
      invariant OuterPass(edges[..], i) == SortByAdjacency(old(edges[..]))
    {
      ghost var start := edges[..];
      var want := edges[i - 1].y;
      SwapMatchesInto(edges, i, want);
      assert OuterPass(start, i) == OuterPass(edges[..], i + 1);
      i := i + 1;
    }
  }

  /** The inner loop of `SortEdgesByAdjacency`: swaps every later edge touching `want` into slot `i`. */
  method SwapMatchesInto(edges: array<Edge>, i: nat, want: int)
    requires i < edges.Length
    modifies edges
    ensures edges[..] == InnerPass(old(edges[..]), i, want, i + 1)
  {
    var n := i + 1;
    while n < edges.Length
      invariant i + 1 <= n <= edges.Length
      invariant InnerPass(edges[..], i, want, n) == InnerPass(old(edges[..]), i, want, i + 1)
    {
      ghost var before := edges[..];
      if edges[n].x == want || edges[n].y == want {
        var swap := edges[n];
        edges[n] := edges[i];
        edges[i] := swap;
        assert edges[..] == before[n := before[i]][i := before[n]];
      }
      assert InnerPass(before, i, want, n) == InnerPass(edges[..], i, want, n + 1);
      n := n + 1;
    }
  }

  /** `SortEdgesByAdjacency(Face)`: sorts a copy of the face's edge list. */
  method SortFaceEdges(faceEdges: seq<Edge>) returns (sorted: seq<Edge>)
    ensures sorted == SortByAdjacency(faceEdges)
  {
    var edges := new Edge[|faceEdges|](k requires 0 <= k < |faceEdges| => faceEdges[k]);
    assert edges[..] == faceEdges;
    SortEdgesByAdjacency(edges);
    sorted := edges[..];
  }

  /** The edges run head to tail and close up: each `y` is the next edge's `x`, the last wraps to the first. */
  predicate HeadToTail(s: seq<Edge>) {
    (forall k :: 0 <= k < |s| - 1 ==> s[k].y == s[k + 1].x) &&
    (|s| > 0 ==> s[|s| - 1].y == s[0].x)
  }

  /** No two edges start at the same vertex. */
  predicate DistinctStarts(s: seq<Edge>) {
    forall j, k :: 0 <= j < k < |s| ==> s[j].x != s[k].x
  }

  lemma {:induction false} InnerPassKeepsCycle(s: seq<Edge>, i: nat, n: nat)
    requires HeadToTail(s) && DistinctStarts(s)
    requires 1 <= i < |s| && i < n
    ensures InnerPass(s, i, s[i - 1].y, n) == s
    decreases |s| - n
  {
    if n < |s| {
      assert s[n].x != s[i].x;
      if n + 1 < |s| {
        assert s[n].y == s[n + 1].x;
        assert s[n + 1].x != s[i].x;
      } else {
        assert s[n].y == s[0].x;
        assert s[0].x != s[i].x;
      }
      InnerPassKeepsCycle(s, i, n + 1);
    }
  }

  lemma {:induction false} OuterPassKeepsCycle(s: seq<Edge>, i: nat)
    requires HeadToTail(s) && DistinctStarts(s)
    requires 1 <= i
    ensures OuterPass(s, i) == s
    decreases |s| - i
  {
    if i < |s| {
      InnerPassKeepsCycle(s, i, i + 1);
      OuterPassKeepsCycle(s, i + 1);
    }
  }

  /** A perimeter that is already a head-to-tail cycle over distinct vertices comes back unchanged. */
  lemma SortKeepsCycle(s: seq<Edge>)
    requires HeadToTail(s) && DistinctStarts(s)
    ensures SortByAdjacency(s) == s
  {
    OuterPassKeepsCycle(s, 1);
  }

  /** Past slot `i - 1`, the only edge of a cycle that touches `c[i - 1].y` is `c[i]`. */
  lemma OnlyNextTouches(c: seq<Edge>, i: nat, k: nat)
    requires HeadToTail(c) && DistinctStarts(c)
    requires 1 <= i <= k < |c|
    ensures (c[k].x == c[i - 1].y || c[k].y == c[i - 1].y) <==> k == i
  {
    assert c[i - 1].y == c[i].x;
    if k + 1 < |c| {
      assert c[k].y == c[k + 1].x;
    } else {
      assert c[k].y == c[0].x;
    }
  }

  /** Two lists that agree before slot `i` and hold the same edges hold the same edges from `i` on. */
  lemma SameSuffix(c: seq<Edge>, t: seq<Edge>, i: nat)
    requires i <= |c| && i <= |t| && t[..i] == c[..i] && multiset(t) == multiset(c)
    ensures multiset(t[i..]) == multiset(c[i..])
  {
    assert multiset(t[i..]) == multiset(t) - multiset(t[..i]) by {
      assert t == t[..i] + t[i..];
    }
    assert multiset(c[i..]) == multiset(c) - multiset(c[..i]) by {
      assert c == c[..i] + c[i..];
    }
  }

  /** An edge in slot `m >= i` of such a list is one of `c[i..]`. */
  lemma SuffixMember(c: seq<Edge>, t: seq<Edge>, i: nat, m: nat) returns (k: nat)
    requires i <= m < |t| && i <= |c| && t[..i] == c[..i] && multiset(t) == multiset(c)
    ensures i <= k < |c| && t[m] == c[k]
  {
    SameSuffix(c, t, i);
    assert t[m] in multiset(c[i..]) by { assert t[m] == t[i..][m - i]; }
    var d :| 0 <= d < |c[i..]| && c[i..][d] == t[m];
    k := i + d;
  }

  /** The edges from slot `n` on that touch `want` are all `x`. */
  predicate OnlyTouching(t: seq<Edge>, want: int, n: nat, x: Edge) {
    forall m :: n <= m < |t| && (t[m].x == want || t[m].y == want) ==> t[m] == x
  }

  /** A swap at slot `n` brings `x` into slot `i` and leaves the slots after `n` alone. */
  lemma InnerPassSwapStep(t: seq<Edge>, i: nat, want: int, n: nat, x: Edge) returns (t2: seq<Edge>)
    requires i < n < |t| && (t[n].x == want || t[n].y == want)
    requires OnlyTouching(t, want, n, x)
    ensures |t2| == |t| && t2[i] == x && OnlyTouching(t2, want, n + 1, x)
    ensures InnerPass(t, i, want, n) == InnerPass(t2, i, want, n + 1)
  {
    t2 := t[n := t[i]][i := t[n]];
    assert forall m :: n + 1 <= m < |t| ==> t2[m] == t[m];
  }

  /** Slot `n` does not touch `want`, so the pass moves on with the list unchanged. */
  lemma InnerPassSkipStep(t: seq<Edge>, i: nat, want: int, n: nat, x: Edge)
    requires i < n < |t| && !(t[n].x == want || t[n].y == want)
    requires OnlyTouching(t, want, n, x)
    ensures OnlyTouching(t, want, n + 1, x)
    ensures InnerPass(t, i, want, n) == InnerPass(t, i, want, n + 1)
  {
  }

  /** When slot `i` already holds `x` and every later edge touching `want` is `x`, the pass leaves `x` there. */
  lemma {:induction false} InnerPassKeepsSlot(t: seq<Edge>, i: nat, want: int, n: nat, x: Edge)
    requires i < n <= |t| && t[i] == x
    requires OnlyTouching(t, want, n, x)
    ensures InnerPass(t, i, want, n)[i] == x
    decreases |t| - n
  {
    if n < |t| {
      if t[n].x == want || t[n].y == want {
        var t2 := InnerPassSwapStep(t, i, want, n, x);
        InnerPassKeepsSlot(t2, i, want, n + 1, x);
      } else {
        InnerPassSkipStep(t, i, want, n, x);
        InnerPassKeepsSlot(t, i, want, n + 1, x);
      }
    }
  }

  /** An edge ahead of slot `n` that is not in slot `n` is ahead of slot `n + 1`. */
  lemma AheadPastSlot(t: seq<Edge>, n: nat, x: Edge)
    requires n < |t| && x in t[n..] && t[n] != x
    ensures x in t[n + 1..]
  {
    assert t[n..] == [t[n]] + t[n + 1..];
  }

  /**
   * One inner pass for slot `i`, when every edge from slot `n` on that touches
   * `want` is `x` and `x` touches `want`: if `x` is in slot `i` or still
   * ahead, slot `i` ends up holding `x`.
   */
  lemma {:induction false} InnerPassSlot(t: seq<Edge>, i: nat, want: int, n: nat, x: Edge)
    requires i < n <= |t|
    requires x.x == want || x.y == want
    requires OnlyTouching(t, want, n, x)
    requires t[i] == x || x in t[n..]
    ensures InnerPass(t, i, want, n)[i] == x
    decreases |t| - n
  {
    if t[i] == x {
      InnerPassKeepsSlot(t, i, want, n, x);
    } else {
      assert |t[n..]| > 0;
      if t[n].x == want || t[n].y == want {
        var t2 := InnerPassSwapStep(t, i, want, n, x);
        InnerPassKeepsSlot(t2, i, want, n + 1, x);
      } else {
        AheadPastSlot(t, n, x);
        InnerPassSkipStep(t, i, want, n, x);
        InnerPassSlot(t, i, want, n + 1, x);
      }
    }
  }

  /**
   * The inner pass for slot `i` over a permutation of the cycle `c` that is
   * already `c` before slot `i`: every edge it swaps in is `c[i]`, so slot `i`
   * ends up holding `c[i]`.
   */
  lemma InnerPassPlaces(c: seq<Edge>, t: seq<Edge>, i: nat, n: nat)
    requires HeadToTail(c) && DistinctStarts(c)
    requires 1 <= i < |c| && i < n <= |t| && |t| == |c|
    requires t[..i] == c[..i] && multiset(t) == multiset(c)
    requires t[i] == c[i] || c[i] in t[n..]
    ensures InnerPass(t, i, c[i - 1].y, n)[i] == c[i]
  {
    forall m | n <= m < |t| && (t[m].x == c[i - 1].y || t[m].y == c[i - 1].y)
      ensures t[m] == c[i]
    {
      var k := SuffixMember(c, t, i, m);
      OnlyNextTouches(c, i, k);
    }
    OnlyNextTouches(c, i, i);
    InnerPassSlot(t, i, c[i - 1].y, n, c[i]);
  }

  /** From slot `i` on, the outer loop turns such a permutation into `c` itself. */
  lemma {:induction false} OuterPassArranges(c: seq<Edge>, t: seq<Edge>, i: nat)
    requires HeadToTail(c) && DistinctStarts(c)
    requires 1 <= i <= |c| && |t| == |c|
    requires t[..i] == c[..i] && multiset(t) == multiset(c)
    ensures OuterPass(t, i) == c
    decreases |t| - i
  {
    if i == |t| {
      assert t == t[..i] && c == c[..i];
    } else {
      var next := OuterPassStep(c, t, i);
      OuterPassArranges(c, next, i + 1);
    }
  }

  /** One outer step over such a permutation extends the agreement with `c` by one slot. */
  lemma OuterPassStep(c: seq<Edge>, t: seq<Edge>, i: nat) returns (next: seq<Edge>)
    requires HeadToTail(c) && DistinctStarts(c)
    requires 1 <= i < |c| && |t| == |c|
    requires t[..i] == c[..i] && multiset(t) == multiset(c)
    ensures |next| == |c| && next[..i + 1] == c[..i + 1] && multiset(next) == multiset(c)
    ensures OuterPass(t, i) == OuterPass(next, i + 1)
  {
    NextAhead(c, t, i);
    InnerPassPlaces(c, t, i, i + 1);
    assert t[i - 1] == c[i - 1] by { assert t[i - 1] == t[..i][i - 1]; }
    next := InnerPass(t, i, t[i - 1].y, i + 1);
    PrefixExtend(next, t, c, i);
  }

  /** The cycle's edge `i` is in slot `i` of such a permutation or after it. */
  lemma NextAhead(c: seq<Edge>, t: seq<Edge>, i: nat)
    requires i < |c| && |t| == |c|
    requires t[..i] == c[..i] && multiset(t) == multiset(c)
    ensures t[i] == c[i] || c[i] in t[i + 1..]
  {
    SameSuffix(c, t, i);
    assert c[i] in multiset(t[i..]) by { assert c[i] == c[i..][0]; }
    assert t[i..] == [t[i]] + t[i + 1..];
  }

  /** A list that agrees with `t` before slot `i` and with `c` at slot `i`, where `t` agrees with `c` before `i`, agrees with `c` up to slot `i`. */
  lemma PrefixExtend<T>(next: seq<T>, t: seq<T>, c: seq<T>, i: nat)
    requires i < |next| && i < |c| && i <= |t|
    requires next[..i] == t[..i] && t[..i] == c[..i] && next[i] == c[i]
    ensures next[..i + 1] == c[..i + 1]
  {
    assert next[..i + 1] == next[..i] + [next[i]];
    assert c[..i + 1] == c[..i] + [c[i]];
  }

  /**
   * The case the sort is named for: when the edges can be laid out as a
   * head-to-tail cycle over distinct start vertices and the first edge already
   * comes first, sorting produces exactly that cycle, whatever the order of
   * the other edges.
   */
  lemma SortArrangesCycle(s: seq<Edge>, c: seq<Edge>)
    requires HeadToTail(c) && DistinctStarts(c)
    requires multiset(s) == multiset(c)
    requires |s| > 0 ==> |c| > 0 && s[0] == c[0]
    ensures SortByAdjacency(s) == c
    ensures HeadToTail(SortByAdjacency(s))
  {
    assert |s| == |multiset(s)| == |multiset(c)| == |c|;
    if s != [] {
      assert s[..1] == c[..1];
      OuterPassArranges(c, s, 1);
    }
  }

  /**
   * The head-to-tail order is not guaranteed in general: an edge that ends at
   * `want` is swapped in as well, and the next `want` is then read from its `y`.
   * The four edges below form the closed loop 0-1-2-3-0, one of them stored
   * reversed; the result repeats start vertex 2 and never starts at 1.
   */
  lemma SortNeedNotChain()
    ensures SortByAdjacency([Edge(0, 1), Edge(2, 3), Edge(2, 1), Edge(3, 0)])
         == [Edge(0, 1), Edge(2, 1), Edge(2, 3), Edge(3, 0)]
    ensures !HeadToTail(SortByAdjacency([Edge(0, 1), Edge(2, 3), Edge(2, 1), Edge(3, 0)]))
  {
    var s := [Edge(0, 1), Edge(2, 3), Edge(2, 1), Edge(3, 0)];
    var s1 := [Edge(0, 1), Edge(2, 1), Edge(2, 3), Edge(3, 0)];
    assert InnerPass(s, 1, 1, 2) == s1 by {
      assert s[2 := s[1]][1 := s[2]] == s1;
      assert InnerPass(s1, 1, 1, 3) == InnerPass(s1, 1, 1, 4) == s1;
    }
    assert InnerPass(s1, 2, 1, 3) == s1 by {
      assert InnerPass(s1, 2, 1, 3) == InnerPass(s1, 2, 1, 4);
    }
    assert InnerPass(s1, 3, 2, 4) == s1;
    calc {
      SortByAdjacency(s);
      OuterPass(s, 1);
      OuterPass(s1, 2);
      OuterPass(s1, 3);
      OuterPass(s1, 4);
      s1;
    }
  }
}
