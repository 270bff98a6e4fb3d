# graph_matching: the `Matching` store, in Dafny

This project models `GraphMatching::Matching`, the mutable store that the
library's maximum-matching algorithms use for a graph matching (a set of
vertex-disjoint edges). The store is a single array `@ary` indexed by vertex id.
Entry `i` holds the partner of `i`, or nil when `i` is unmatched.

There are two modules:

- `MatchingState` (`matching_state.dfy`) holds the value-level model. Its main
  pieces are:
  - The array is a `Store = seq<Option<nat>>`, read and written with Ruby's rules.
    A read past the end yields nil (`At`). An assignment past the end pads with
    nil (`Assign`).
  - Every query of the class is a function of the array.
  - Every mutator's effect is a function from the old array to the new one:
    `Added`, `Deleted`, `Augmented`, `GabowPrefix`, `AddAll`. The loops of
    `augment` and `to_a` are prefix-recursive functions (`Cleared`, `AddEven`,
    `ToAScan`) that follow the loop order.
  - The lemmas state what the operations promise.
  - The matching invariant is `Valid`: the partner relation is symmetric and
    irreflexive. It is a predicate that lemmas assume, not something every
    operation keeps, because `add` overwrites without clearing a previous partner.
- `GraphMatching` (`matching.dfy`) holds class `Matching`, with the field
  `ary: Store`. Its methods update `ary` in place, statement by statement, as the
  Ruby methods do. The loops of `gabow`, `[]`, `augment` and `to_a` carry
  invariants that tie the state to the functions above. The queries (`has_edge?`,
  `size`, …) are pure expressions over `@ary`. They are the `MatchingState`
  functions applied to `m.ary`.

Two design decisions:

- **Paths.** An augmenting path is its sequence of vertices. Its edges are the
  consecutive pairs (`PathEdges`), and `ap.vertexes` is the sequence itself.
- **Rejected paths.** `augment` accepts only paths with an odd number of edges,
  which means an even number of vertices, at least two. A three-vertex path such
  as `[1, 2, 3]` has two edges, so the code raises (`ThreeVertexPathRejected`).

## Model

| member | source | states |
|---|---|---|
| MatchingState.Assign | lib/graph_matching/matching.rb:35-36 | `@ary[i] = x` reads back `x` at `i`, leaves every other read unchanged, and grows the array to `i + 1` when `i` is past its end |
| MatchingState.Added | lib/graph_matching/matching.rb:34-37 | after `add([u, v])` the array has the edge both ways (`has_edge?([u,v])` and `has_edge?([v,u])`), every entry other than `u` and `v` is unchanged, and the array never shrinks; a previous partner keeps its own entry |
| MatchingState.HasEdge | lib/graph_matching/matching.rb:73-76 | `has_edge?([u, v])`: entry `u` is `v` and entry `v` is `u`; a nil or past-the-end read gives false, so both ends lie within the array when it holds |
| MatchingState.HasEdgeOnValid | lib/graph_matching/matching.rb:73-76 | on a valid array `has_edge?([u, v])` holds iff entry `u` is `v`: the second read follows by symmetry |
| MatchingState.Deleted | lib/graph_matching/matching.rb:54-57 | after `delete([u, v])` both entries are nil whatever they held, and no other entry changes |
| MatchingState.DeleteIdempotent | lib/graph_matching/matching.rb:54-57 | deleting the same edge twice leaves the same array as deleting it once |
| MatchingState.AddBothEnds | lib/graph_matching/matching.rb:17-21 | adding a pair from its second end immediately after adding it from its first leaves the same array as adding it once; `GabowPrefixEntries` covers `.gabow`, where other adds come in between |
| MatchingState.DeletePreservesValid | lib/graph_matching/matching.rb:54-57 | deleting a matched edge keeps a valid array valid |
| MatchingState.DeleteShrinksSize | lib/graph_matching/matching.rb:54-57 | deleting a matched edge of a valid array keeps it valid and lowers `size` by exactly one |
| MatchingState.AddFreePair | lib/graph_matching/matching.rb:34-37 | adding two distinct unmatched vertices to a valid array keeps it valid and raises `size` by exactly one |
| MatchingState.DeleteUndoesAdd | lib/graph_matching/matching.rb:54-57 | `delete` after `add` of two unmatched vertices restores every read of the array |
| MatchingState.ReplaceKeepsSize | lib/graph_matching/matching.rb:86-89 | replacing a matched edge by a pair that is free once it is deleted keeps a valid array valid and leaves `size` unchanged |
| MatchingState.Size | lib/graph_matching/matching.rb:95-98 | `size` is half the number of matched vertices (non-nil entries), rounded down |
| MatchingState.Vertexes | lib/graph_matching/matching.rb:120-122 | `vertexes` (`@ary.compact`) holds exactly the values that occur as entries, and is no longer than the array |
| MatchingState.ValuesAreMatched | lib/graph_matching/matching.rb:78-80 | on a valid array a vertex occurs as a value exactly when its own entry is non-nil |
| MatchingState.HasVertex | lib/graph_matching/matching.rb:78-80 | `has_vertex?(v)` holds iff `v` is in `vertexes`, and on a valid array iff `v` is matched |
| MatchingState.IsEmpty | lib/graph_matching/matching.rb:59-61 | `empty?` holds iff `vertexes` is empty, iff no index holds a non-nil entry |
| MatchingState.HasAnyVertex | lib/graph_matching/matching.rb:69-71 | `has_any_vertex?(*vs)` holds iff some `v` in `vs` occurs as a value, and on a valid array iff some `v` in `vs` is matched |
| MatchingState.UnmatchedVertexesIn | lib/graph_matching/matching.rb:116-118 | `unmatched_vertexes_in(set)` is the subset of `set` whose members are not values of `vertexes`, and on a valid array those with a nil entry |
| MatchingState.FirstMatched | lib/graph_matching/matching.rb:65 | on a non-empty array, the index of the first non-nil entry: it is non-nil and every earlier entry is nil |
| MatchingState.First | lib/graph_matching/matching.rb:63-67 | `first` with `j` the first non-nil value returns `[@ary[j], j]`, which on a valid array is the lowest matched vertex followed by its partner |
| MatchingState.ToAScan | lib/graph_matching/matching.rb:100-110 | every pair the `to_a` loop emits is `[i, @ary[i]]` for a real entry, and the emitted pairs are strictly ascending in their first vertex |
| MatchingState.EdgesOf | lib/graph_matching/matching.rb:100-110 | the result of `to_a`: every listed pair `[i, e]` has `@ary[i] == e` for a real index `i`, and the pairs are strictly ascending in `i` |
| MatchingState.Upward | lib/graph_matching/matching.rb:100-110 | reference edge list: `[i, j]` is listed iff `i < j` and `@ary[i] == j`, ascending in `i` |
| MatchingState.ToAScanSkips | lib/graph_matching/matching.rb:102-107 | on a valid array, after visiting indices below `n`, `skip` holds exactly the vertices whose partner is smaller than both the vertex and `n` |
| MatchingState.ToAScanPrefix | lib/graph_matching/matching.rb:100-110 | on a valid array the `to_a` loop, after visiting any prefix, has emitted exactly the reference edges of that prefix |
| MatchingState.EdgesOfIsUpward | lib/graph_matching/matching.rb:100-110 | on a valid array `to_a` equals the reference edge list |
| MatchingState.EdgesOfListsEachPairOnce | lib/graph_matching/matching.rb:100-110 | on a valid array `to_a` lists `[i, j]` iff `i < j` and `has_edge?([i, j])`, in ascending order of `i`: each matched pair exactly once |
| MatchingState.VertexesCount | lib/graph_matching/matching.rb:120-122 | `vertexes` has one value per matched vertex |
| MatchingState.UpwardCount | lib/graph_matching/matching.rb:100-110 | the reference edge list has one edge per vertex whose partner has a larger index |
| MatchingState.VertexesClear | lib/graph_matching/matching.rb:120-122 | clearing one non-nil entry removes exactly one value from `vertexes` |
| MatchingState.UpwardClear | lib/graph_matching/matching.rb:100-110 | clearing one entry removes exactly its own reference edge, if it had one |
| MatchingState.PairCount | lib/graph_matching/matching.rb:95-98 | on a valid array the non-nil entries pair up: `vertexes` has twice as many values as there are reference edges |
| MatchingState.SizeIsEdgeCount | lib/graph_matching/matching.rb:95-98 | on a valid array `size` equals the length of `to_a`, and `vertexes` has exactly `2 * size` values, so the division by two drops nothing |
| MatchingState.FirstIsFirstEdge | lib/graph_matching/matching.rb:63-67 | on a non-empty valid array `to_a` is non-empty and `first` equals `to_a[0]` |
| MatchingState.PathEdges | lib/graph_matching/matching.rb:40-41 | a path of `k + 1` vertices has `k` edges, the `i`-th joining vertices `i` and `i + 1` |
| MatchingState.Augmented | lib/graph_matching/matching.rb:39-52 | `augment` succeeds iff the path has an even number (at least two) of vertices, so an odd number of edges; otherwise it raises |
| MatchingState.ClearPartner | lib/graph_matching/matching.rb:44-45 | one step of the first loop of `augment`: `v` and its old partner become nil, and no other entry changes |
| MatchingState.Cleared | lib/graph_matching/matching.rb:43-46 | after the first loop every path vertex is nil, and no entry that was nil becomes matched |
| MatchingState.AddEven | lib/graph_matching/matching.rb:47-49 | the second loop never shrinks the array, and when the number of edges it has seen is odd, the last of them (an even-index edge) is present both ways |
| MatchingState.AddEvenKeepsMatched | lib/graph_matching/matching.rb:47-49 | the second loop only adds, so a non-nil entry stays non-nil |
| MatchingState.ClearedEffect | lib/graph_matching/matching.rb:43-46 | on a valid array the first loop makes nil exactly the path's vertices and their partners, and keeps every other entry |
| MatchingState.ClearedValid | lib/graph_matching/matching.rb:43-46 | the first loop keeps a valid array valid |
| MatchingState.AddEvenOnPath | lib/graph_matching/matching.rb:47-49 | for a path of distinct vertices, after the second loop has seen `m` edges, a path vertex holds its neighbour along its even-index edge once that edge is added, and its old entry before |
| MatchingState.AddEvenOffPath | lib/graph_matching/matching.rb:47-49 | the second loop leaves every vertex off the path as it was |
| MatchingState.AugmentOnPath | lib/graph_matching/matching.rb:39-52 | after a successful `augment` along distinct vertices, each path vertex holds its neighbour along the even-index edge that contains it |
| MatchingState.AugmentOffPath | lib/graph_matching/matching.rb:39-52 | after `augment` on a valid array, a vertex off the path is nil if its partner was on the path, and unchanged otherwise |
| MatchingState.MatesPairEdges | lib/graph_matching/matching.rb:47-49 | an array in which every path vertex holds its neighbour along its even-index edge has every even-index path edge both ways |
| MatchingState.AugmentPairsPath | lib/graph_matching/matching.rb:47-49 | after `augment` along distinct vertices, every even-index path edge `(v2i, v2i+1)` is matched both ways |
| MatchingState.AugmentKeepsOffPath | lib/graph_matching/matching.rb:43-49 | after `augment` on a valid array, an off-path former partner of a path vertex is unmatched and every other off-path entry is unchanged |
| MatchingState.AugmentEffect | lib/graph_matching/matching.rb:39-52 | `augment` on a valid array along distinct vertices: it succeeds, pairs every even-index edge both ways, unmatches off-path partners of path vertices, keeps every other off-path entry, and leaves a valid array |
| MatchingState.PairedIsValid | lib/graph_matching/matching.rb:39-52 | any array with exactly the on-path and off-path entries `augment` produces is valid, so symmetry is preserved |
| MatchingState.AugmentGrowsSize | lib/graph_matching/matching.rb:39-52 | with a genuine augmenting path (valid array, distinct vertices, unmatched endpoints, matched odd-index edges), `augment` leaves a valid array whose `size` is larger by exactly one |
| MatchingState.SizeGrowsByOne | lib/graph_matching/matching.rb:95-98 | two more matched vertices, distinct and previously unmatched, make `size` larger by exactly one |
| MatchingState.GrownMatched | lib/graph_matching/matching.rb:39-52 | after augmenting along a genuine augmenting path the matched vertices are those before plus the two path endpoints |
| MatchingState.GrownMatchedAt | lib/graph_matching/matching.rb:39-52 | per vertex: matched after such an augmentation iff matched before or a path endpoint |
| MatchingState.InnerVertexMatched | lib/graph_matching/matching.rb:39-52 | on a genuine augmenting path each inner vertex is already matched to a path vertex |
| MatchingState.GabowStep | lib/graph_matching/matching.rb:17-21 | one step at `ix`: with `n1 = mate[ix]` non-zero and `mate[n1] == ix` (a past-the-end `mate[n1]` is nil, so no), the edge `[n1, ix]` is added both ways; otherwise the array is unchanged; entries other than `ix` and `n1` never change |
| MatchingState.GabowPrefix | lib/graph_matching/matching.rb:15-24 | after visiting any prefix of indices, every non-nil entry `x` holds `mate[x]`, and `x` and `mate[x]` name each other |
| MatchingState.GabowPrefixEntries | lib/graph_matching/matching.rb:15-24 | after `.gabow`'s loop has visited indices below `n`, an entry holds `mate[x]` iff `x` and `mate[x]` name each other (not both 0) and one of their non-zero writes has happened; all others are nil |
| MatchingState.GabowEntries | lib/graph_matching/matching.rb:15-24 | `.gabow(mate)` holds `mate[x]` at `x` exactly when `mate[mate[x]] == x` and `x` and `mate[x]` are not both 0; every other entry is nil, so a 0 or a non-reciprocal value adds nothing, while a vertex that names 0 and is named back by `mate[0]` is matched to vertex 0 |
| MatchingState.GabowHasReciprocalPairs | lib/graph_matching/matching.rb:17-21 | for `i, j >= 1` with `mate[i] == j` and `mate[j] == i`, `.gabow(mate)` has the edge `[i, j]` |
| MatchingState.GabowValid | lib/graph_matching/matching.rb:15-24 | `.gabow(mate)` is a valid matching when no non-zero vertex is its own mate |
| MatchingState.AddAll | lib/graph_matching/matching.rb:26-28 | `Matching[*edges]`: both ends of every edge are matched, and the last edge is present both ways |
| MatchingState.Endpoints | lib/graph_matching/matching.rb:26-28 | the endpoints of an edge list contain both ends of every edge |
| MatchingState.EndpointsCount | lib/graph_matching/matching.rb:26-28 | vertex-disjoint edges have exactly twice as many endpoints as edges |
| MatchingState.AddAllEntries | lib/graph_matching/matching.rb:26-28 | `Matching[*edges]` for vertex-disjoint edges has every edge both ways and nil at every vertex that is no endpoint |
| MatchingState.AddAllPartner | lib/graph_matching/matching.rb:26-28 | in `Matching[*edges]` for vertex-disjoint edges every non-nil entry comes from one of the edges, in one orientation |
| MatchingState.FromEdgesRoundTrip | lib/graph_matching/matching.rb:26-28 | for vertex-disjoint edges `E`, `Matching[*E]` is valid and its `to_a` holds `[i, j]` iff `i < j` and `E` has the edge in either orientation, with one entry per edge of `E` |
| MatchingState.AugmentExample | lib/graph_matching/matching.rb:39-52 | `{(2,3)}` augmented with `[1, 2, 3, 4]` is the array matching `(1,2)` and `(3,4)` |
| MatchingState.AugmentedEdgesExample | lib/graph_matching/matching.rb:100-110 | the `to_a` of that result is `[[1, 2], [3, 4]]` |
| MatchingState.ThreeVertexPathRejected | lib/graph_matching/matching.rb:42 | `augment([1, 2, 3])` raises, on any array |
| MatchingState.AddTwoExample | lib/graph_matching/matching.rb:26-28 | `Matching[[0, 2], [1, 3]]` is the array `[2, 3, 0, 1]` |
| MatchingState.ToAExample | lib/graph_matching/matching.rb:100-110 | the `to_a` of that array is `[[0, 2], [1, 3]]`: each edge once, though both its ends are visited |
| GraphMatching.Matching.constructor | lib/graph_matching/matching.rb:30-32 | a new matching has an empty array, is `empty?` and has `size` 0 |
| GraphMatching.Matching.Gabow | lib/graph_matching/matching.rb:15-24 | the loop builds exactly the array `GabowPrefix` describes, so its entries are those `GabowEntries` gives |
| GraphMatching.Matching.FromEdges | lib/graph_matching/matching.rb:26-28 | the loop adds the edges in order, giving `AddAll(edges)`; for vertex-disjoint edges every edge is present both ways |
| GraphMatching.Matching.Add | lib/graph_matching/matching.rb:34-37 | the two assignments give `Added(old ary, e)`: the edge both ways, every other entry unchanged |
| GraphMatching.Matching.Delete | lib/graph_matching/matching.rb:54-57 | the two assignments give `Deleted(old ary, e)`: both ends nil, every other entry unchanged |
| GraphMatching.Matching.Replace | lib/graph_matching/matching.rb:86-89 | `delete old` then `add new`: the new edge is present, and any other vertex is nil if it was an end of the old edge and unchanged otherwise |
| GraphMatching.Matching.ReplaceIfMatched | lib/graph_matching/matching.rb:91-93 | a replace when `has_edge?(match)` held before, and no change at all otherwise |
| GraphMatching.Matching.Augment | lib/graph_matching/matching.rb:39-52 | succeeds iff the path has an even number (at least two) of vertices, and then returns this matching with `ary` equal to `Augmented(old ary, path)`; on rejection the array is unchanged |
| GraphMatching.Matching.DeletePartnersOf | lib/graph_matching/matching.rb:43-46 | the first loop of `augment` leaves `Cleared(old ary, path)` |
| GraphMatching.Matching.AddEvenEdges | lib/graph_matching/matching.rb:47-49 | the second loop of `augment` leaves `AddEven(old ary, edges)` |
| GraphMatching.Matching.ToA | lib/graph_matching/matching.rb:100-110 | the loop returns `EdgesOf(ary)`; on a valid array that lists `[i, j]` iff `i < j` and `has_edge?([i, j])`, and its length is `size` |

## Left out

- `to_s` and `inspect` (lines 82-84, 112-114) only render Ruby's `Array#to_s` text. That is formatting, not matching logic.
- `to_undirected_edge` (lines 126-129) is private and never called. It wraps RGL's `UnDirectedEdge`, which is not part of this model.
- The `explainable` mixin (line 1) is not part of this model. It only provides diagnostics.
- `Path` (lines 2, 40-41) is not part of this model. The model assumes that `Path#edges` gives the consecutive pairs of the vertex sequence and `Path#vertexes` gives the sequence itself.
- Ruby's dynamic typing is not modelled:
  - vertices are natural numbers, so negative indices (which count from the end in Ruby) and non-integer vertices cannot arise;
  - `has_vertex?(nil)` cannot be asked, though in Ruby it would match the nil padding;
  - an edge is a pair, so longer arrays passed as edges cannot arise.
- `.gabow`'s mate array is a sequence of natural numbers, so neither a nil nor a negative entry is modelled. In Ruby a nil entry `n1` makes `mate[n1]` (line 18) raise a `TypeError`, and a negative entry reads `mate[n1]` from the end of the array.
- MatchingState.First: requires a non-empty array. On an empty matching the Ruby code indexes `@ary` with nil and raises a `TypeError`, which is not modelled.
- GraphMatching.Matching.Add: the value Ruby returns from `add`, `delete`, `replace` and `replace_if_matched` (the value of the last assignment) is not modelled. Callers use these methods for their effect.
- GraphMatching.Matching.Augment: the `RuntimeError` Ruby raises is modelled as the result `Err(InvalidAugmentingPath)`.
- `has_any_vertex?(*v)` takes its arguments as a sequence. `unmatched_vertexes_in(set)` takes a Ruby `Set`, modelled as a `set<nat>`.
- The `augment` lemmas that state the effect on path vertices assume that the path's vertices are pairwise distinct (`Distinct`). The code does not check this, and `Augmented` itself is defined for every path.
- Queries are module functions over `m.ary` rather than members of the class. They read only `@ary`, so their value is the same.
