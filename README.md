# Winged-edge adjacency of ProBuilder, in Dafny

This project models `pb_WingedEdge`, the winged-edge adjacency structure of
ProBuilder (`Runtime/Core/pb_WingedEdge.cs`), and proves properties of the
model with the Dafny verifier.

A winged edge is one node per face-boundary edge. Each node holds:

- an `EdgeLookup`, which pairs the welded ("common") edge with the per-face
  ("local") edge;
- the owning face;
- `next` and `previous` around that face;
- `opposite`, another node with the same common edge (possibly of the same
  face).

The model covers:

- building the structure from a list of faces and a vertex-weld lookup
  (`GetWingedEdges`);
- the queries that walk it: `Count`, `GetAdjacentEdgeWithCommonIndex` and
  `MakeQuad`;
- the swap sort `SortEdgesByAdjacency`;
- the vertex tables `GetSpokes` and `SortCommonIndicesByAdjacency`.

Modules, one per file:

- `Wrappers` (`wrappers.dfy`): `Option`.
- `Edges` (`edges.dfy`): `Edge`, `EdgeLookup`, and the edge equality the
  model assumes.
- `Wings` (`wings.dfy`): the node type, `Count`, and
  `GetAdjacentEdgeWithCommonIndex`.
- `EdgeSort` (`edge_sort.dfy`): both `SortEdgesByAdjacency` overloads. The
  list version is an in-place method over an `array`, proved equal to a
  specification function that mirrors its two loops.
- `Quad` (`quad.dfy`): `MakeQuad`. The method works in three phases over
  arrays (`dup`, `edges`, `quad`), and each phase is proved against a
  specification function.
- `Spokes` (`spokes.dfy`): `GetSpokes`, a loop that grows a dictionary of
  lists, and `SortCommonIndicesByAdjacency`.
- `Builder` (`builder.dfy`): `GetWingedEdges`, written as nested loops that
  append nodes to the arena and replace the nodes whose links change. Each loop is proved against
  a specification function of the state so far (`BuildSpec`, `ThreadSpec`).
  Lemmas then show that the resulting arena satisfies `Built`, a pointwise
  description of the whole result.
- `Arena` (`arena.dfy`): what `Built` guarantees:
  - no link dangles;
  - each face is a `next` ring whose `Count` is the face's edge count;
  - `previous` undoes `next`;
  - the rules for `opposite`, including the non-manifold case;
  - the arena is unique;
  - which wings are listed.

Representation choices:

- Nodes live in an arena (`seq<Wing>`), and a node is identified by its index
  in it. `next`, `previous` and `opposite` are `Option<nat>` indices, with
  `None` standing for a null reference.
- A face is given as its sequence of edges, and `face` is the face's index in
  the (already distinct) face list.
- The weld lookup is a `map<int, int>`.
- Integers are unbounded: every quantity is a list length or an array index.

Behaviour of the code that the model follows:

- **The opposites dictionary never forgets an entry.** Lines 303-311 add an
  entry only on the first sight of a common edge and never remove it. If a
  common edge occurs three times, in order as `a`, `b` and `c`:
  - `b` links with `a`;
  - `c` links with `a` too and takes over `a.opposite`;
  - `b` still points at `a`.

  So `opposite` is symmetric only where a common edge occurs at most twice.
  A resolved entry is not removed, so a third occurrence relinks with the
  first (`Arena.OppositeOfThree`, `Arena.OppositeBackward`).
- **Nodes of the same face can be linked.** The code never compares faces
  when pairing, so two edges of one face with the same common edge are
  linked to each other. An opposite is therefore only another node with the
  same common edge, possibly of the same face (`Arena.BuiltOpposite`).
- **The sort matches either endpoint and has no `break`.** The inner loop of
  `SortEdgesByAdjacency` swaps in every later edge that touches `want` at
  either end, so head-to-tail order is not guaranteed
  (`EdgeSort.SortNeedNotChain`).
- **The vertex sort checks only a count.** `SortCommonIndicesByAdjacency`
  is documented (lines 240-241) as building a complete path, but line 248
  only compares the number of matched edges with the number of indices. A
  non-null result need not be a path, nor list each index once
  (`Spokes.CountCheckAcceptsNoPath`, `Spokes.CountCheckAcceptsRepeats`).
- **A missing lookup key fails the whole call.** `lookup[e.x]` at line 283
  throws when an index has no entry in the weld lookup. The model returns
  `ok == false`, exactly when some face has such an edge. Nothing the method
  builds before the failure is returned.

## Model

| member | source | states |
|---|---|---|
| Edges.Key | Runtime/Core/pb_WingedEdge.cs:269 | the canonical key of an edge has its smaller endpoint first and is the same edge up to endpoint order |
| Edges.KeyDecidesSameEdge | Runtime/Core/pb_WingedEdge.cs:303-311 | the dictionary key `Key` identifies two common edges exactly when they have the same two endpoints in either order (the assumed edge equality) |
| Wings.Count | Runtime/Core/pb_WingedEdge.cs:66-78 | the count is at least 1 and is the first number of `next` steps after which the walk meets null or comes back to the start node |
| Wings.LoopLengthUnique | Runtime/Core/pb_WingedEdge.cs:66-78 | the walk ends first after only one number of steps, so `Count`'s result is determined |
| Wings.GetAdjacentEdgeWithCommonIndex | Runtime/Core/pb_WingedEdge.cs:170-178 | returns `next` when next's common edge contains the index; otherwise `previous` when previous's does; otherwise null exactly when neither contains it; a returned node always contains the index |
| EdgeSort.InnerPass | Runtime/Core/pb_WingedEdge.cs:201-209 | one inner-loop pass keeps the length and the multiset of edges and leaves the slots before `i` alone |
| EdgeSort.OuterPass | Runtime/Core/pb_WingedEdge.cs:197-210 | the outer loop from slot `i` keeps the length and the multiset of edges and leaves the slots before `i` alone |
| EdgeSort.SortByAdjacency | Runtime/Core/pb_WingedEdge.cs:195-213 | the sorted list is a permutation of the input of the same length, and the first edge stays first |
| EdgeSort.SortEdgesByAdjacency | Runtime/Core/pb_WingedEdge.cs:195-213 | the array afterwards holds `SortByAdjacency` of its old contents (sorting in place) |
| EdgeSort.SwapMatchesInto | Runtime/Core/pb_WingedEdge.cs:201-209 | the inner loop leaves the array equal to `InnerPass` of its old contents |
| EdgeSort.SortFaceEdges | Runtime/Core/pb_WingedEdge.cs:184-190 | sorting a copy of a face's edge list gives `SortByAdjacency` of that list |
| EdgeSort.SortKeepsCycle | Runtime/Core/pb_WingedEdge.cs:180-213 | a list that already runs head to tail around a cycle with distinct start vertices comes back unchanged |
| EdgeSort.OnlyNextTouches | Runtime/Core/pb_WingedEdge.cs:203 | in a head-to-tail cycle with distinct start vertices, among the edges from slot `i` on only edge `i` touches the end of edge `i - 1` |
| EdgeSort.InnerPassSlot | Runtime/Core/pb_WingedEdge.cs:201-209 | when every edge from slot `n` on that touches `want` is `x`, and `x` touches `want` and is in slot `i` or ahead, one inner pass leaves `x` in slot `i` |
| EdgeSort.InnerPassKeepsSlot | Runtime/Core/pb_WingedEdge.cs:201-209 | when slot `i` already holds `x` and every edge from slot `n` on that touches `want` is `x`, one inner pass leaves `x` in slot `i` |
| EdgeSort.InnerPassPlaces | Runtime/Core/pb_WingedEdge.cs:201-209 | when the slots before `i` already hold the cycle's prefix and the cycle's edge `i` is still ahead, one inner pass puts that edge into slot `i` |
| EdgeSort.OuterPassArranges | Runtime/Core/pb_WingedEdge.cs:197-210 | from a permutation of a head-to-tail cycle that agrees with it before slot `i`, the outer loop produces the cycle |
| EdgeSort.OuterPassStep | Runtime/Core/pb_WingedEdge.cs:197-210 | one step of the outer loop over such a permutation keeps it a permutation of the cycle, makes it agree with the cycle through slot `i`, and leaves the rest of the outer loop to run from slot `i + 1` |
| EdgeSort.SortArrangesCycle | Runtime/Core/pb_WingedEdge.cs:180-213 | any permutation of a head-to-tail cycle with distinct start vertices that starts with the cycle's first edge sorts into exactly that cycle |
| EdgeSort.SortNeedNotChain | Runtime/Core/pb_WingedEdge.cs:201-209 | the loop 0-1-2-3-0 given as `(0,1), (2,3), (2,1), (3,0)` sorts to `(0,1), (2,1), (2,3), (3,0)`, which does not run head to tail |
| Quad.TriangleEdges | Runtime/Core/pb_WingedEdge.cs:98-106 | on a loop of three, entry `k` is the edge lookup of the node `k` steps along `next` from `w`, each of those steps existing |
| Quad.FirstMatch | Runtime/Core/pb_WingedEdge.cs:113-122 | none exactly when no right edge from `n` on equals left edge `i`; otherwise the first such right edge |
| Quad.OneMatchAt | Runtime/Core/pb_WingedEdge.cs:108-127 | with exactly one match, exactly one left edge equals a right edge; it and its first partner are the only marked slots |
| Quad.OneMatchLeavesFour | Runtime/Core/pb_WingedEdge.cs:125-135 | with exactly one match, some left edge and its partner are the only marked slots, no other left edge equals a right edge, and exactly four edges are left unmarked |
| Quad.MarkMatches | Runtime/Core/pb_WingedEdge.cs:108-123 | the `dup` array and the match counter after the nested loops are `Marks` and `MatchCount` |
| Quad.CollectUnmatched | Runtime/Core/pb_WingedEdge.cs:129-135 | `edges` holds the unmarked edges in their original order |
| Quad.QuadFrom | Runtime/Core/pb_WingedEdge.cs:137-167 | a result has length 4 and starts with `edges[0].local.x, edges[0].local.y`; entries 2 and 3 are not -1 and are the `local.y` of edges chained by common index from `edges[0]` |
| Quad.ThreadQuad | Runtime/Core/pb_WingedEdge.cs:137-167 | the quad array the method fills equals `QuadFrom` of the four edges |
| Quad.QuadSpec | Runtime/Core/pb_WingedEdge.cs:125-167 | null unless exactly one left edge matches; a result has four entries, of which entries 2 and 3 are not -1 |
| Quad.MakeQuad | Runtime/Core/pb_WingedEdge.cs:92-168 | null when either loop is not of length 3 (the right walk is counted only when the left one is a triangle); otherwise the result of the three phases on the six edges |
| Quad.SplitQuadRejoins | Runtime/Core/pb_WingedEdge.cs:92-168 | a quad split along its diagonal into two triangles comes back as the 4-cycle 0, 1, 2, 3 |
| Quad.OnlyPairMatches | Runtime/Core/pb_WingedEdge.cs:108-127 | when one left edge and one right edge are the only equal pair, one match is counted and exactly those two slots are marked |
| Quad.UnmatchedConcat | Runtime/Core/pb_WingedEdge.cs:129-135 | collecting unmarked edges splits over a concatenation of edges and marks |
| Quad.UnmatchedThree | Runtime/Core/pb_WingedEdge.cs:129-135 | of three edges with one marked, the other two are collected in order |
| Quad.RingsMeetOnce | Runtime/Core/pb_WingedEdge.cs:113-122 | the triangles `p, q, r` and `q, p, s` over distinct vertices have exactly one equal pair of edges, at the positions where each ring was entered |
| Quad.OneSharedEdgeLeavesFour | Runtime/Core/pb_WingedEdge.cs:108-135 | with exactly one equal pair across the triangles, one match is counted and the other four edges are collected, each triangle's in its own order |
| Quad.RingWithoutShared | Runtime/Core/pb_WingedEdge.cs:129-135 | a triangle's two edges other than the shared one come in ring order unless the shared one was the middle edge |
| Quad.QuadOfFour | Runtime/Core/pb_WingedEdge.cs:137-167 | on the four unshared edges the final phase succeeds and threads `q, r, p, s`, or `r, p, s, q` when the left pair is swapped |
| Quad.AdjacentTrianglesMakeQuad | Runtime/Core/pb_WingedEdge.cs:89-168 | two triangles `p, q, r` and `q, p, s` sharing only the edge `{p, q}`, entered at any edges and welded from their local edges, do make a quad, whose vertices weld to `q, r, p, s` (or `r, p, s, q`) |
| Quad.SameTriangleTwiceFails | Runtime/Core/pb_WingedEdge.cs:125-127 | two triangles sharing all three edges give null |
| Spokes.InsertionOrderKeys | Runtime/Core/pb_WingedEdge.cs:225-233 | the order in which the dictionary first sees its keys lists every endpoint exactly once |
| Spokes.SpokesKeysStep | Runtime/Core/pb_WingedEdge.cs:225-233 | one iteration keeps the key set equal to the endpoints of the nodes seen so far |
| Spokes.SpokesValuesStep | Runtime/Core/pb_WingedEdge.cs:225-233 | one iteration keeps every list equal to the spoke list of its vertex |
| Spokes.SpokesTotalStep | Runtime/Core/pb_WingedEdge.cs:225-233 | one iteration adds two to the total length of the lists |
| Spokes.GetSpokes | Runtime/Core/pb_WingedEdge.cs:218-237 | the key set is the set of common endpoints; each vertex's list is its spoke list in input order; the lists total twice the number of nodes |
| Spokes.EndpointsExactly | Runtime/Core/pb_WingedEdge.cs:218-237 | a vertex is a key exactly when some listed node's common edge contains it |
| Spokes.IncidentExactly | Runtime/Core/pb_WingedEdge.cs:225-233 | a node is in the list of a vertex exactly when it is listed and its common edge touches that vertex |
| Spokes.IncidentKeepsOrder | Runtime/Core/pb_WingedEdge.cs:223-234 | the lists for a concatenation of node lists are the concatenated lists, so each list keeps input order |
| Spokes.MatchedEdges | Runtime/Core/pb_WingedEdge.cs:245 | the filtered list is no longer than the node list, and both endpoints of each of its edges are in the index set |
| Spokes.MatchedEdgesExactly | Runtime/Core/pb_WingedEdge.cs:245 | an edge is matched exactly when both its endpoints are in the set and some listed node has it as common edge |
| Spokes.Starts | Runtime/Core/pb_WingedEdge.cs:251 | the projection keeps the length and takes each edge's `x` |
| Spokes.StartsPermutation | Runtime/Core/pb_WingedEdge.cs:251 | permuting edges permutes their start vertices |
| Spokes.SortCommonIndicesByAdjacency | Runtime/Core/pb_WingedEdge.cs:243-252 | null exactly when the matched-edge count differs from the set's size; otherwise a list as long as the set whose entries are all in the set, are as a multiset the `x` values of the matched edges, and start with the first matched edge's `x` |
| Spokes.SortCommonIndicesFindsLoop | Runtime/Core/pb_WingedEdge.cs:240-252 | matched edges that are, in any order, the edges of a head-to-tail loop over distinct vertices starting with the first matched edge give that loop's vertices in loop order |
| Spokes.SortCommonIndicesKeepsLoop | Runtime/Core/pb_WingedEdge.cs:243-252 | matched edges that already run head to tail over distinct vertices come back as their start vertices in that order |
| Spokes.CountCheckAcceptsNoPath | Runtime/Core/pb_WingedEdge.cs:240-251 | two separate edges `{k, k + 1}` and `{k + 2, k + 3}`, each seen twice, pass the count check and give `k, k + 1, k + 2, k + 3`, although no node joins `k + 1` to `k + 2` |
| Spokes.CountCheckAcceptsRepeats | Runtime/Core/pb_WingedEdge.cs:240-251 | the path `k, k + 1, k + 2` with its first edge seen twice passes the count check and gives `k, k + 1, k`, which lists `k` twice and misses `k + 2` |
| Builder.SortedFaces | Runtime/Core/pb_WingedEdge.cs:272-274 | the faces' edge lists, one per face, each in the order `SortEdgesByAdjacency` leaves it |
| Builder.SortedFacesPermute | Runtime/Core/pb_WingedEdge.cs:272-274 | sorting reorders a face's edges: the same edges as a multiset, so as many, and the same first edge |
| Builder.LookupOf | Runtime/Core/pb_WingedEdge.cs:283 | the node's edge pair: the face's own edge as the local edge, and the weld entries of its two endpoints as the common edge |
| Builder.LookupKeepsSameEdge | Runtime/Core/pb_WingedEdge.cs:283-303 | local edges that are the same up to endpoint order get common edges that are the same and so share a dictionary key |
| Builder.SortKeepsWelded | Runtime/Core/pb_WingedEdge.cs:274-283 | sorting a face does not change whether every index of its edges has a weld entry |
| Builder.KeysOf | Runtime/Core/pb_WingedEdge.cs:303 | one dictionary key per node, and two nodes share a key exactly when their common edges are the same edge up to endpoint order |
| Builder.FirstOf | Runtime/Core/pb_WingedEdge.cs:303-311 | the index of the first node with a key |
| Builder.LastOf | Runtime/Core/pb_WingedEdge.cs:303-306 | the index of the last node with a key |
| Builder.OppositeOf | Runtime/Core/pb_WingedEdge.cs:301-311 | a node's final opposite, when present, is another node with the same key |
| Builder.FirstIndices | Runtime/Core/pb_WingedEdge.cs:303-311 | the dictionary after registering the keys holds each key seen, mapped to its first node |
| Builder.OppositeStep | Runtime/Core/pb_WingedEdge.cs:303-307 | a new node changes the opposite of an old node only when that old node is the first with the new node's key, and then links it to the new node |
| Builder.OppositeOfNewest | Runtime/Core/pb_WingedEdge.cs:303-311 | the newest node links to the first earlier node with its key, or to none when there is none |
| Builder.OppositeStepKeepsLinks | Runtime/Core/pb_WingedEdge.cs:301-312 | pairing changes no edge, face or ring link, and keeps the dictionary equal to the first node per key |
| Builder.OppositeStepKeepsOpposites | Runtime/Core/pb_WingedEdge.cs:301-312 | pairing keeps every node's opposite equal to `OppositeOf` |
| Builder.LinkNode | Runtime/Core/pb_WingedEdge.cs:282-299 | linking adds exactly one node to the arena |
| Builder.PairNode | Runtime/Core/pb_WingedEdge.cs:301-312 | pairing keeps the arena's size and registers only nodes of the arena |
| Builder.LinkNodeThreaded | Runtime/Core/pb_WingedEdge.cs:282-299 | a fresh node is appended after the previous one, and the last node of a face closes the ring back to the first |
| Builder.PairNodeStepped | Runtime/Core/pb_WingedEdge.cs:301-312 | on a hit the registered node and the new node point at each other; on a miss the new node gets no opposite and is registered |
| Builder.ThreadedPlaced | Runtime/Core/pb_WingedEdge.cs:282-299 | linking one more node extends the face's ring and leaves nodes before the face untouched |
| Builder.StepFace | Runtime/Core/pb_WingedEdge.cs:280-315 | one iteration adds exactly one node and keeps every registered index within the arena |
| Builder.ThreadSpec | Runtime/Core/pb_WingedEdge.cs:278-316 | when the inner loop gets through a face it has added one node per edge, and registered only nodes of the arena |
| Builder.BuildSpec | Runtime/Core/pb_WingedEdge.cs:272-319 | when the outer loop gets through the first faces, the arena holds one node per edge of those faces |
| Builder.StepFaceNodes | Runtime/Core/pb_WingedEdge.cs:282-312 | one iteration places one more node of the face, keeps the links of the nodes before the face, and keeps the dictionary equal to the first node per key |
| Builder.StepFaceWings | Runtime/Core/pb_WingedEdge.cs:314-315 | one iteration extends the listed wings by what the new node's face position contributes |
| Builder.StepFaceStage | Runtime/Core/pb_WingedEdge.cs:280-315 | one iteration moves the face stage one node further: earlier nodes keep their links, the new node is placed, dictionary and opposites stay as specified, and wings are listed |
| Builder.ThreadSpecStage | Runtime/Core/pb_WingedEdge.cs:278-316 | every state the inner loop reaches places the face's nodes so far with the specified opposites and wings |
| Builder.BuildSpecBuiltUpTo | Runtime/Core/pb_WingedEdge.cs:272-319 | every state the outer loop reaches places the faces so far with the specified dictionary, opposites and wings |
| Builder.SortedFacesWelded | Runtime/Core/pb_WingedEdge.cs:274-283 | sorting every face does not change whether all faces are welded |
| Builder.BuiltWelded | Runtime/Core/pb_WingedEdge.cs:283 | a built arena found a weld entry for every edge index |
| Builder.AddWing | Runtime/Core/pb_WingedEdge.cs:280-315 | the body of the inner loop leaves the state `StepFace` describes |
| Builder.ThreadFace | Runtime/Core/pb_WingedEdge.cs:278-316 | the inner loop ends in the state `ThreadSpec` describes, or fails only when the face has an edge index missing from the lookup |
| Builder.BuildSpecBuilt | Runtime/Core/pb_WingedEdge.cs:263-322 | the outer loop's final state is the built arena with the listed wings, and reaching it means every face was welded |
| Builder.GetWingedEdges | Runtime/Core/pb_WingedEdge.cs:263-322 | succeeds exactly when every face is welded, and then returns the arena `Built` describes for the sorted faces and the wings `Listed` describes |
| Arena.NodeFace | Runtime/Core/pb_WingedEdge.cs:284 | every node belongs to the face whose node range holds it |
| Arena.PlacedNode | Runtime/Core/pb_WingedEdge.cs:282-297 | the node for edge `j` of a face holds that edge's lookup pair, the face, and the ring neighbours `j + 1` and `j - 1`, wrapping around |
| Arena.BuiltClosed | Runtime/Core/pb_WingedEdge.cs:282-311 | every `next`, `previous` and `opposite` link names a node of the arena |
| Arena.BuiltLinksInverse | Runtime/Core/pb_WingedEdge.cs:287-297 | `next` and `previous` are never null, stay on the node's face, and undo each other |
| Arena.RingLinksInverse | Runtime/Core/pb_WingedEdge.cs:287-297 | within one placed face, `next` and `previous` undo each other |
| Arena.RingWalk | Runtime/Core/pb_WingedEdge.cs:287-297 | `t` steps of `next` from edge `j` of a face reach edge `j + t` modulo the face's size |
| Arena.RingLength | Runtime/Core/pb_WingedEdge.cs:287-297 | from each node of a placed face the walk of `Count` ends first after exactly as many steps as the face has edges |
| Arena.BuiltRing | Runtime/Core/pb_WingedEdge.cs:287-297 | `Count` of every node of the built arena terminates and returns its face's edge count |
| Arena.BuiltOpposite | Runtime/Core/pb_WingedEdge.cs:301-311 | an opposite is a different node whose common edge is the same up to endpoint order; a node has none exactly when no other node shares its common edge |
| Arena.OppositeForward | Runtime/Core/pb_WingedEdge.cs:303-306 | when a node's opposite lies later in the arena, that later node points back |
| Arena.OppositeBackward | Runtime/Core/pb_WingedEdge.cs:303-311 | when a node's opposite lies earlier, it is the first node with that common edge, and it points back exactly when no later node shares the edge |
| Arena.OppositeSymmetric | Runtime/Core/pb_WingedEdge.cs:303-311 | where at most two nodes share a common edge, `opposite` is symmetric |
| Arena.OppositeOfThree | Runtime/Core/pb_WingedEdge.cs:303-311 | with three nodes `a < b < c` on one common edge, `a` and `c` point at each other while `b` points at `a` |
| Arena.BuiltUnique | Runtime/Core/pb_WingedEdge.cs:263-322 | the arena is determined by the faces and the weld lookup (building twice gives the same graph) |
| Arena.OffsetSorted | Runtime/Core/pb_WingedEdge.cs:274-275 | the node ranges of the sorted faces are those of the input faces |
| Arena.FaceWingsAll | Runtime/Core/pb_WingedEdge.cs:314-315 | without `oneWingPerFace` a face lists every one of its nodes, in order |
| Arena.FaceWingsOne | Runtime/Core/pb_WingedEdge.cs:314-315 | with `oneWingPerFace` a face lists only its first node, and an empty face nothing |
| Arena.ListedAll | Runtime/Core/pb_WingedEdge.cs:314-315 | without `oneWingPerFace` the returned wings are all nodes in construction order |
| Arena.ListedOne | Runtime/Core/pb_WingedEdge.cs:314-315 | with `oneWingPerFace` the returned wings are exactly the first nodes of the non-empty faces |
| Arena.ListedOneInOrder | Runtime/Core/pb_WingedEdge.cs:314-315 | with `oneWingPerFace` the returned wings are strictly increasing, so in face order and without repeats |

## Left out

- `Equals`, `GetHashCode` and `ToString` (lines 30-51 and 80-87) are not modelled. Node identity is the arena index, not these equalities.
- The enumerator (lines 53-61) is not modelled, because its class is not part of this model.
- The `ProBuilderMesh` overload of `GetWingedEdges` (lines 254-257), `pb.sharedIndices.ToDictionary()` and `faces.Distinct()` (lines 265-266) are not modelled. The weld lookup, each face's edge list and an already distinct face list are inputs instead.
- Edge equality is not visible in the source. `EdgeLookup.Equals` (line 115) and the dictionary keyed on edges (line 269) are both modelled as unordered equality on the common edge, through the canonical key `Key`.
- Wings.Count: requires that the walk from the node ends. On a `next` chain that loops without passing the start node again, the source never returns.
- Wings.GetAdjacentEdgeWithCommonIndex: requires `next` to be set, and `previous` too when `next` does not match, because the source dereferences them.
- Builder.GetWingedEdges: the source throws on an edge index missing from the weld lookup. The model returns `ok == false` and an empty arena instead of the partial, discarded state.
- Builder.GetWingedEdges: the counter `index` (lines 270 and 318) is never read, so it is not modelled.
- Builder.GetWingedEdges: the inner loop and its body are separate methods (`ThreadFace`, `AddWing`), in the source's statement order.
- Quad.MakeQuad: returns the quad as a sequence (`Option<seq<int>>`) rather than as the `int[4]` it fills, and the two triangles are given by node index in an arena.
