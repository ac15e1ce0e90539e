# peers: a verified model in Dafny

`peers` is a small Go library that keeps a weighted relationship graph over a
set of keys. `Connect` builds the complete graph. For every pair of keys it
asks a caller-supplied `derive` for the two directed weights. `Map` re-derives
the weights over the mutually connected pairs of an existing graph. `Prune`,
`PruneByWeight` and `PruneByKey` delete the edges a caller-supplied predicate
rejects. `IsRelated` and `IsFamily` test mutual connection. Both panic on an
edge that exists in one direction only. `Families` enumerates index
combinations, from the largest size down to 2, and keeps every clique that is
not contained in one already kept, other than the start combination 0, 1, ...,
n - 1 of each size, which it never tests (see Findings). `Coagulate` processes families in order.
It cuts an accepted family off from every node outside it. A family with an
already claimed member is skipped.

This project models peers.go and util.go.

- A `*Node` is an index into an arena. The arena is the class `Graphs.Graph`
  with a `keys` sequence and a `peers` sequence of maps. `peers[a][b]` is the
  weight of the edge a -> b.
- Go's `nil` slot in the slice `Connect` returns is `Option.None`.
- The panic of `IsRelated` is the result `Checked.OneWay(from, to)`. It names
  the edge that exists without its reverse.
- `derive` and `belongs` are function parameters.
- The imperative code keeps its form:
  - `Connect`, `Map`, `Prune` and `Coagulate` are methods that update the
    arena in place, with loop invariants.
  - `Families` works on an `array<nat>` named `d`, as the Go code does.
  - Each method is proved against a ghost function or predicate that states
    the result. Lemmas state the properties of that function.

Files:

- `util.dfy`: util.go.
- `graph.dfy`: the arena, `IsRelated`, `IsFamily`, `AsMap`, `PeerWeights`.
- `build.dfy`: `Connect`, `Map`.
- `prune.dfy`: `Prune`, `PruneByWeight`, `PruneByKey`.
- `combinations.dfy`: the walk of `d` through the combinations.
- `families.dfy`: `Families`.
- `coagulate.dfy`: `Coagulate`.
- `maximal.dfy`: over the whole arena, Families' result is exactly the list of
  maximal candidates in walk order. A candidate is a clique of two or more
  nodes other than a start combination 0, 1, ..., n - 1, which the walk never
  tests.
- `fixture.dfy`: the keys, `derive` and `prune` of peers_test.go, and its two
  tests `TestFamilies` and `TestCoagulate` carried through the model.

## Model

| member | source | states |
|---|---|---|
| Util.IndicesToElements | util.go:3-10 | The result has one element per index, and element k is `of[in[k]]`. |
| Util.ToMap | util.go:13-19 | The set holds exactly the elements of the slice. |
| Util.Subset | util.go:31-39 | True iff every element of `b` occurs in `a` (b is a subset of a, despite the argument order). True for an empty `b`. |
| Util.SubsetOfAny | util.go:22-29 | True iff some group of `a` contains every element of `b`. False for an empty `a`. |
| Util.Min | util.go:41-46 | The result is at most both arguments and equal to one of them. |
| Util.SubsetReflexive | util.go:31-39 | `subset(x, x)` always holds, so Families never appends a group equal to one it kept. |
| Util.SubsetOfAnyAppend | util.go:22-29 | Appending a group to `a` keeps every group `a` already covered covered. |
| Util.DistinctCard | util.go:13-19 | `toMap` of a slice without repeats has as many elements as the slice. |
| Graphs.Graph.AddNode | peers.go:55-63 | A new node with the given key and an empty peer map is appended; nothing else changes, and a valid arena stays valid. |
| Graphs.Graph.SetPair | peers.go:65 | The two weights of the pair are stored in both directions; every other node is unchanged, and a valid arena stays valid. |
| Graphs.Graph.DeleteEdge | peers.go:19 | `delete(a.Peers, b)`: only the edge a -> b is removed, and a valid arena stays valid. |
| Graphs.IsRelated | peers.go:111-118 | `Ok(true)` iff both directions exist, `Ok(false)` iff neither does, and the panic iff exactly one does, naming that edge. |
| Graphs.FamilyFrom | peers.go:122-129 | The remaining pairs from (i, j) on are all related iff the result is `Ok(true)`. A panic names a one-way edge of the group. No panic when those pairs are consistent. |
| Graphs.IsFamily | peers.go:121-130 | `Ok(true)` iff the group is a clique. It panics only on a one-way edge inside the group and never on a consistent group. True for fewer than two nodes. |
| Graphs.AsMap | peers.go:239-245 | Every key of the nodes is mapped, nothing else is, and a key maps to the last node carrying it. |
| Graphs.PeerWeights | peers.go:247-253 | Every peer's key is mapped to the weight of an edge to a peer with that key. When peer keys are distinct it is that peer's own weight. |
| Build.Allocate | peers.go:53-64 | While i is 0 the next node, and on the first pair node 0 too, is allocated with its key and no peers, and `dst` records it. |
| Build.Link | peers.go:65 | Storing both weights of pair (i, j) moves the edge and weight invariants to (i, j + 1). |
| Build.Complete | peers.go:52-72 | When the pair loop ends, the edges are exactly the linked pairs of distinct nodes, and every edge stays in the arena. |
| Build.Connect | peers.go:48-74 | The complete graph over the keys in key order. For i < j, edge i -> j has `derive(src[i], src[j])`'s first weight and j -> i the second. No self-edges. With fewer than two keys no node exists and every slot is nil. |
| Build.MapPair | peers.go:83-99 | One pass of Map's loop: allocation while i is 0, and the pair is copied only when the source nodes point at each other. |
| Build.Map | peers.go:77-108 | A fresh graph over the same keys. It has an edge pair exactly where the source pair is mutually connected, carrying derive's weights for the keys. The source is unchanged. |
| Pruning.JudgedPairs | peers.go:16-17 | The pairs the nested loop has passed when it reaches (i, j) are exactly the pairs of positions p < q that come before (i, j). |
| Pruning.Judge | peers.go:18-23 | Judging a -> b can remove only that edge, only when `belongs` rejects it, and leaves every other node and every weight alone. |
| Pruning.WalkEdge | peers.go:16-25 | Part way through the walk, an edge survives iff it is not yet judged or `belongs` accepts it, and it keeps its weight. |
| Pruning.JudgePair | peers.go:18-23 | Each direction of the pair is deleted when it exists and `belongs` rejects it. |
| Pruning.WalkIsPruned | peers.go:16-25 | The nested loop over i < j ends at `Pruned`: an edge is deleted exactly when some pair of positions holds its two ends and `belongs` rejects it. |
| Pruning.JudgeNext | peers.go:18-23 | One pass of the inner loop body takes the arena from the walk at (i, j) to the walk at (i, j + 1); keys do not change. |
| Pruning.PruneRow | peers.go:17-24 | The inner loop takes the arena from the start of row i to its end; keys do not change. |
| Pruning.Prune | peers.go:15-26 | The arena becomes `Pruned` of what it was; keys are unchanged and every edge stays in the arena. `belongs` is a predicate on the two node indices (see Left out). |
| Pruning.ByWeight | peers.go:32-34 | The predicate accepts an edge iff `belongs` accepts its weight. |
| Pruning.PruneByWeight | peers.go:31-35 | A judged edge survives iff `belongs` accepts its weight. |
| Pruning.ByKey | peers.go:40-42 | The predicate accepts a pair iff `belongs` accepts the two keys. |
| Pruning.PruneByKey | peers.go:39-43 | A judged edge survives iff `belongs` accepts the keys of its ends. |
| Pruning.PrunedDeletes | peers.go:15-26 | Pruning only deletes edges and never changes a weight. |
| Pruning.PrunedOutside | peers.go:16-17 | An edge with an end outside `nodes` is untouched. |
| Pruning.PrunedInside | peers.go:18-23 | An edge between two listed nodes survives iff it existed and `belongs` accepts it. |
| Pruning.PruneIdempotent | peers.go:15-26 | Pruning twice with the same predicate on node indices is pruning once. A Go predicate that reads the `Peers` maps is outside this lemma. |
| Pruning.PruneByWeightIdempotent | peers.go:31-35 | PruneByWeight twice is PruneByWeight once. |
| Pruning.PruneKeepsMutual | peers.go:18-23 | A predicate on node indices that is symmetric in its two nodes keeps every edge mutual. A Go predicate that reads the `Peers` maps is outside this lemma. |
| Pruning.PruneByKeyKeepsMutual | peers.go:39-43 | PruneByKey with a symmetric key predicate keeps every edge mutual. |
| Pruning.PruneByWeightOneWay | peers.go:31-35 | On two mutually connected nodes whose weights `belongs` accepts one way and rejects the other, PruneByWeight leaves a one-way edge, on which IsRelated panics. |
| Combinations.Start | peers.go:168-172 | The first d of size n is 0, 1, ..., n - 1. |
| Combinations.Pivot | peers.go:187-189 | The downward scan stops at the last position not at its maximum, or at 0. |
| Combinations.StartLeast | peers.go:168-172 | The start combination is the lexicographically least of its size. |
| Combinations.LastGreatest | peers.go:178 | Once d[0] is at its maximum, d is the greatest combination of its size. |
| Combinations.NextAfter | peers.go:180-193 | One step of d yields a combination of the same size that comes lexicographically after it. |
| Combinations.NextIsSuccessor | peers.go:180-193 | No combination lies strictly between d and its step. |
| Combinations.NextNotStart | peers.go:168-193 | A step never yields the start combination. |
| Combinations.NextRank | peers.go:178-202 | Each step raises d read as a number, which stays bounded, so the inner loop ends. |
| Combinations.NextIs | peers.go:180-193 | The step keeps every position before the pivot and counts up by one from the pivot's old value plus one. |
| Combinations.FindPivot | peers.go:185-188 | The downward scan of `d` stops at the pivot. |
| Combinations.CountUp | peers.go:189-193 | Position i is incremented and each later position becomes one more than the one before; earlier positions are unchanged. |
| Combinations.Advance | peers.go:180-193 | The in-place update of d is exactly the step `Next`, in both of the Go code's branches. |
| Cliques.Admit | peers.go:194-199 | The group is appended iff it is a clique and no kept group covers it. A panic names a one-way edge of the group. |
| Cliques.Consider | peers.go:194-199 | The test of d's group on the arena; consistent nodes never panic. |
| Cliques.Visit | peers.go:178-199 | One pass of the inner loop: d becomes its successor, then its group is tested. |
| Cliques.FoundStep | peers.go:194-199 | Testing the combination right after the tested ones keeps every invariant of the walk. |
| Cliques.FoundEnterSkipping | peers.go:168-172 | Entering size n, the start combination counts as tested although it is not a candidate of the walk. |
| Cliques.FoundLeave | peers.go:178 | When d[0] reaches its maximum, every combination of size n has been tested. |
| Cliques.FoundResult | peers.go:167 | After the last size: kept groups are cliques in walk order, no group is a subset of an earlier one, and every tested candidate is covered. |
| Cliques.NoSubsumption | peers.go:197 | With distinct nodes, no kept group is a subset of a later one either. |
| Cliques.StartArray | peers.go:168-172 | `d` is a fresh array holding 0, 1, ..., n - 1. |
| Cliques.WalkSize | peers.go:178-202 | The inner loop leaves with every combination of the size tested, or with IsFamily's panic. |
| Cliques.FamiliesOfSize | peers.go:167-202 | One size of the walk, from its start combination, which it does not test. |
| Cliques.Families | peers.go:163-204 | Each group is a clique picked by increasing positions, of size at least 2 and not the start combination. Groups are in walk order (larger first, then lexicographic). None is a subset of an earlier one, nor of a later one when the nodes are distinct. Every clique except a start combination is covered. It panics only on a one-way edge, never on consistent nodes. |
| Cliques.MissedPair | peers.go:168-195 | Two mutually connected nodes give no family. |
| Cliques.FamiliesOfSizeAll | peers.go:167-202 | One size of the corrected walk, which tests the start combination first. |
| Cliques.FamiliesAll | peers.go:163-204 | As Families, and every clique of two or more nodes is covered. |
| Cliques.FoundPair | peers.go:168-195 | The corrected walk finds the family of the two connected nodes. |
| Coagulation.Gather | peers.go:215-222 | The clash flag is set iff some member is already seen. Without a clash, the family set is the group's members. |
| Coagulation.CutStep | peers.go:228-229 | The two deletes for one more outside peer extend the cut by that peer. |
| Coagulation.Unlink | peers.go:228-229 | Both directions of the member-peer edge are deleted. |
| Coagulation.StripMember | peers.go:225-232 | Whatever order the peer map is visited in, the member ends cut from exactly its peers outside the family. |
| Coagulation.Claim | peers.go:223-234 | Every member of an accepted group is stripped in turn and marked seen. |
| Coagulation.Coagulate | peers.go:212-236 | The arena ends as `After` of the groups. |
| Coagulation.AfterDeletes | peers.go:212-236 | Coagulate only deletes edges and never changes a weight. |
| Coagulation.AfterMutual | peers.go:228-229 | Both deletes are made for each cut edge, so mutual edges stay mutual. |
| Coagulation.Skipped | peers.go:217-220 | A skipped group shares a member with an earlier accepted group, and processing it changes no edge. |
| Coagulation.AcceptedDisjoint | peers.go:217-233 | Two accepted groups share no member. |
| Coagulation.AfterConfines | peers.go:223-233 | At the end, every member of an accepted group has peers only inside that group. |
| Coagulation.AfterKeepsFamily | peers.go:226-230 | At the end, every edge between two members of an accepted group is still there with its weight. |
| Coagulation.AfterFamily | peers.go:212-236 | At the end, a member of an accepted group has exactly the peers it had inside the group. |
| Maximal.SameElements | peers.go:195 | Two increasing index groups with the same elements are equal. |
| Maximal.SameOrdered | peers.go:178-199 | Two lists in walk order with the same groups are equal. |
| Maximal.KeptIn | peers.go:194-199 | A kept group of a result that covers and is covered by the maximal candidates (cliques other than a start combination) is one of them. |
| Maximal.AnswerIn | peers.go:194-199 | Each maximal candidate (a clique other than a start combination) is a group of such a result. |
| Maximal.PromisedShape | peers.go:163-204 | Over the whole arena, Families' groups are increasing, never grow along the list, none lies in an earlier one, and they are in walk order. |
| Maximal.Determined | peers.go:163-204 | Over the whole arena, Families' promises determine its result: exactly the maximal candidates (cliques other than a start combination), in walk order. |
| Maximal.FamiliesExactly | peers.go:163-204 | Families over the whole arena of a graph without one-way edges returns the given list of maximal candidates (cliques other than a start combination). |
| Fixture.ScanFinds | peers_test.go:42-48 | The derive scan keeps 0 when no character of the first key occurs in the second, and otherwise ends on a character both keys hold. |
| Fixture.ScanLast | peers_test.go:42-48 | The last character of the first key that occurs in the second decides the scan. |
| Fixture.DeriveShares | peers_test.go:37-58 | derive weighs a pair (0, 0) iff the keys share no character; otherwise both weights are shared characters. |
| Fixture.Weighed | peers_test.go:8-16 | Over the seven test keys, a weight is not 0 exactly when the two keys share a character. |
| Fixture.PrunedPair | peers_test.go:85-87 | After pruning the connected fixture by weight, an edge survives iff its keys share a character. |
| Fixture.PrunedEdges | peers_test.go:85-87 | The pruned fixture has exactly the edges between keys that share a character. |
| Fixture.Setup | peers_test.go:85-87 | Connect followed by pruning by non-zero weight builds the fixture's arena over the test keys with those edges. |
| Fixture.JoinedCover | peers_test.go:18-35 | Every clique of two or more nodes of the pruned fixture lies in one of its three families. |
| Fixture.FirstAnswer | peers_test.go:18-35 | The three families of the test are the maximal candidates of the pruned fixture, in walk order. With JoinedCover they are also its maximal cliques. |
| Fixture.FamiliesScenario | peers_test.go:85-113 | Families of the pruned fixture returns the families {a, ab, abc, ca}, {ab, abc, bce, ca} and {bce, e}, in this order. |
| Fixture.FirstClaims | peers.go:212-236 | Coagulate accepts the first and third family and skips the second, which shares members with the first. |
| Fixture.CoagulatedEdges | peers_test.go:130-132 | Coagulating the pruned fixture by its families leaves each accepted family joined only inside itself, and the skipped family's extra edges gone. |
| Fixture.CoagulatedCover | peers_test.go:117-128 | Every clique of two or more nodes of the coagulated fixture lies in {a, ab, abc, ca} or {bce, e}. |
| Fixture.SecondAnswer | peers_test.go:117-128 | Those two families are the maximal candidates of the coagulated fixture. With CoagulatedCover they are also its maximal cliques. |
| Fixture.CoagulateScenario | peers_test.go:115-158 | After Coagulate, Families returns {a, ab, abc, ca} and {bce, e}, in this order. |

## Left out

- `ConnectAsync`, `MapAsync` and the ordered worker pipeline in async.go are about goroutines, channels and cancellation. They are not part of this model. Their results are meant to equal `Connect` and `Map`.
- The panic of `IsRelated` is not an abort here. It is the `OneWay` result, which `IsFamily` and `Families` return as soon as Go would panic.
- Go's map iteration order is unspecified. `Coagulate` and `PeerWeights` pick map keys with `:|`, so their contracts hold for every order.
- Pointer identity is arena identity. Two nodes with equal keys are still different nodes.
- `PruneByWeight` reads `a.Peers[b]` when `belongs` is asked. The model reads the weight from the arena as it was when pruning started. The two agree, because pruning never changes a weight, and an edge is asked about only while it still exists.
- Go's `delete` on a node outside the arena cannot happen with pointers. The model requires every listed index to lie in the arena (`InRange`).
- `derive` and `belongs` are plain deterministic functions. A callback that panics or has side effects is not modelled.
- Pruning.Prune: `belongs` sees only the two node indices, never the arena. A Go predicate receives the live nodes and may read their `Peers` maps, for example a node's degree or the reverse edge, which the walk changes as it goes. Such a predicate is not modelled, so `Pruning.WalkIsPruned`, `Pruning.PruneIdempotent` and `Pruning.PruneKeepsMutual` do not cover it. `PruneByWeight` and `PruneByKey` are covered, because they read only the weight of an edge still present and the keys, which pruning never changes.
- No running time is stated for `Families`, whose cost is exponential in the number of nodes.
- The tests call `Prune(nodes, prune)` with `prune` a predicate on weights (peers_test.go:87 and 131). That is the parameter type of `PruneByWeight`, not of `Prune`, so the fixture prunes with `PruneByWeight`.
- The test keys are ASCII, so a byte of a key is a `char` here, and the weight `byte(0)` is `'\0'`.
- `TestConnect` (peers_test.go:67-83) is not restated for the fixture. `Build.Connect` already states that every two distinct nodes are joined in both directions, so `IsRelated` holds for them.
- The tests sort both lists of families and compare them only up to the shorter length. The scenario methods state the whole list, in walk order, which is stronger.

## Findings

| source | as written | input that shows it | evidently intended | confidence | as-written member | corrected member |
|---|---|---|---|---|---|---|
| peers.go:168-195 | `d` is stepped before its group is tested, so the start combination 0, 1, ..., n - 1 of every size is never tested | two nodes joined in both directions: the only pair is 0, 1, and `Families` returns no family | every combination is tested, as the list of combinations in the comment at peers.go:133-152 shows, so every clique is covered by a returned family | high, not executed | Cliques.MissedPair | Cliques.FamiliesAll |
