# Typed ordered multigraph — a Dafny model

This project models the in-memory graph of `src/data/Project.js`. It covers:
- **Registries.** Node and edge specifications, folded into maps by `pull`/`keyOf`.
- **Node store.** Key → node.
- **Edge store.** Label → source key → bucket of edges, kept in ascending `order`.
- **Mutators.** The operations that keep the store consistent: `addNode`, `removeNode`,
  `addEdge`, `_insertEdge`, `_deleteEdge` and `removeEdge`. `addEdge` also files a mirror
  edge under the label's `inverseLabel`.

Every `invariant(...)` that throws in the source is a `Fail`/`Err` outcome here. It carries
one error variant per failure site, and the store is left as the source leaves it at the
throw.

Files:
- `records.dfy`: the records (`GraphNode`, `GraphEdge`, `GraphNodeSpec`, `GraphEdgeSpec`), the
  error variants and the outcome types.
- `registry.dfy`: `pull` and `keyOf`. `pull` is a loop over the list, proved to build the
  last-wins map.
- `buckets.dfy`: one bucket as a sequence. This file has the lookup of a target, the ordered
  insertion loop of `_insertEdge` (with JavaScript's object-assignment semantics) and the
  deletion of a target.
- `store.dfy`: the three-level store. It defines lookup (`getEdge`), insertion, deletion
  and the error of `_deleteEdge` (`Missing`), container drop, the store after `addEdge`
  (`Linked`), the full semantics of `removeEdge` as a relation (`Removal`, with `Unlinked`
  for its success), and `Retains` ("nothing added, surviving buckets keep their order").
- `cascade.dfy`: the contract of `removeNode`'s cascade. It does not depend on the order in
  which labels are visited.
- `pairing.dfy`: inverse edges kept in step. When the specifications declare every inverse
  back, an edge is filed exactly when its mirror is, and every mutator preserves that.
- `graph.dfy`: the `Graph` class. Its fields are `nodes` and `edges`, and its methods update
  them in place.
- `scenarios.dfy`: concrete runs proved from the class's contracts. These include the
  counterexamples for the findings below.

Decisions:
- **The store.** Buckets are sequences: the order lives in the sequence, not in object key
  order. `Graph.Valid()` says each bucket is sorted by `order`, has distinct targets, and
  files each edge under its own label and source.
- **`getEdge`.** It is not defined in the source file. It is supplied as the three-level
  lookup the field comment describes (`src/data/Project.js:61`).
- **`removeEdge`** is corrected to look the mirror up under `toKey`. It keeps the source's
  non-atomic order: the edge is deleted first, then the mirror. A missing mirror fails with
  the edge already gone.
- **`removeNode`** visits the specified labels in an unspecified order, and its contract
  holds for any order. It takes the first remaining edge of the node's bucket until the
  bucket is empty. This is what the source's `for..in` does while `removeEdge` deletes from
  the same object: keys deleted before their visit are skipped. A failing `removeEdge` stops
  the cascade. The node is already gone at that point, as in the source.
- **Inverse labels.** A label named as an inverse need not have its own specification. The
  store may hold labels that `edgeSpecs` does not know, and nothing assumes otherwise.
- **Self-loops.** A self-loop under a label that is its own inverse is filed once: the second
  `_insertEdge` rewrites the identical value in place. Removing that loop then fails, because
  its mirror is the same triple and it is already gone.

## Model

| member | source | states |
|---|---|---|
| `Registry.Pull` | src/data/Project.js:3-9 | the loop over the list builds a map whose keys are exactly the keys of the items, each bound to the last item carrying it |
| `Registry.PulledUnique` | src/data/Project.js:3-9 | the registry is determined by the list: two maps pulled from the same list are equal |
| `Registry.PulledLastWins` | src/data/Project.js:5-7 | for duplicate keys the last item of the list wins |
| `GraphModel.Graph.constructor` | src/data/Project.js:57-62 | node specifications are keyed by `type`, edge specifications by `label`, both as `pull` builds them; absent node and edge stores start empty |
| `EdgeStore.Lookup` | src/data/Project.js:61 | `getEdge`: the edge found is in the bucket of its label and source and points to the target; nothing is found exactly when the label, the source or the target is missing |
| `EdgeStore.LookupIsMember` | src/data/Project.js:61 | in a well-formed store a found edge carries the looked-up label, source and target, and is the only such edge |
| `GraphModel.Graph.GetEdge` | src/data/Project.js:61 | the edge returned has the requested label, source and target and belongs to that bucket; none is returned exactly when no edge of the bucket points to the target |
| `GraphModel.Graph.AddNode` | src/data/Project.js:66-72 | a taken key fails with nothing changed; otherwise exactly one node, with the given type, key and content, is added and returned, and the edges are unchanged |
| `GraphModel.Graph.AddEdge` | src/data/Project.js:96-113 | an unknown label, an existing triple and an existing mirror triple each fail with their own error before anything changes; it succeeds exactly when none applies, and then the store is the old one with the edge and (when the label has an inverse) its mirror inserted; edges in step with their mirrors stay in step |
| `EdgeStore.LookupLinked` | src/data/Project.js:109-112 | after a successful `addEdge` the triple finds the new edge, the reversed triple under the inverse finds the mirror with the same data and order, every other triple finds what it found before, and the store stays well formed |
| `GraphModel.Graph.InsertEdge` | src/data/Project.js:115-146 | `_insertEdge` leaves the store equal to the store with the edge inserted at its ordered place and keeps every bucket sorted with distinct targets |
| `Buckets.InsertOrdered` | src/data/Project.js:128-145 | the rebuilding loop puts the new edge just before the first sibling with a strictly greater order, or last; an identical edge already present leaves the bucket as it was |
| `Buckets.BuildStep` | src/data/Project.js:131-139 | one turn of the loop: the `inserted` flag flips exactly at the first sibling of greater order, and the partial bucket grows by the new edge (at that point) and by the visited sibling |
| `Buckets.PutPrefix` | src/data/Project.js:135 | assigning the new edge at its place appends it when its target is new, and rewrites nothing visible when the identical edge is already there |
| `Buckets.InsertionPoint` | src/data/Project.js:133 | the insertion point lies after every sibling whose order is not greater than the new edge's, and before the first strictly greater one |
| `Buckets.InsertedSorted` | src/data/Project.js:128-145 | ordered insertion keeps a sorted bucket sorted |
| `Buckets.InsertedAfterTies` | src/data/Project.js:133 | the new edge goes after exactly the siblings whose order is not greater: ties keep it after them |
| `Buckets.InsertedMembers` | src/data/Project.js:128-145 | the rebuilt bucket holds the old siblings and the new edge, nothing lost and nothing else added |
| `Buckets.InsertedDistinct` | src/data/Project.js:135-138 | a new target keeps the targets of the bucket distinct |
| `Buckets.FindInserted` | src/data/Project.js:128-145 | after the insertion the new target finds the new edge and every other target finds what it found before |
| `Buckets.RemovedInserted` | src/data/Project.js:128-145 | removing the inserted edge gives back the old bucket, so the existing siblings keep their relative order |
| `EdgeStore.InsertContainers` | src/data/Project.js:118-126 | `_insertEdge` creates the missing label and source containers, adds no other container and leaves every other bucket unchanged |
| `EdgeStore.LookupInsert` | src/data/Project.js:115-146 | after `_insertEdge` the triple finds the edge and every other triple finds what it found before |
| `EdgeStore.InsertWellFormed` | src/data/Project.js:115-146 | an insertion into a well-formed store keeps it well formed |
| `GraphModel.Graph.DeleteEdge` | src/data/Project.js:148-157 | a missing label, source or target fails with its own error and nothing changed; otherwise exactly that edge is deleted, and nothing is added |
| `Buckets.FindIndex` | src/data/Project.js:154 | the position found is the first sibling pointing to the target; nothing is found exactly when no sibling does |
| `Buckets.FindIsMember` | src/data/Project.js:154 | in a bucket with distinct targets the lookup yields exactly the member pointing to the target |
| `Buckets.RemovedLength` | src/data/Project.js:156 | deleting a present target shortens the bucket by one |
| `Buckets.RemovedMembers` | src/data/Project.js:156 | the siblings that survive a deletion are exactly those pointing elsewhere |
| `Buckets.RemovedAt` | src/data/Project.js:156 | deleting the sibling at a position keeps the earlier ones and shifts the later ones down by one |
| `Buckets.RemovedSortedDistinct` | src/data/Project.js:156 | deletion keeps a bucket sorted and its targets distinct |
| `Buckets.FindRemoved` | src/data/Project.js:156 | after a deletion the deleted target finds nothing and every other target finds what it found before |
| `Buckets.RemovedSubseq` | src/data/Project.js:156 | a deletion keeps the surviving siblings in their previous order |
| `EdgeStore.LookupDelete` | src/data/Project.js:148-157 | after `_deleteEdge` the triple finds nothing and every other triple finds what it found before |
| `EdgeStore.DeleteWellFormed` | src/data/Project.js:148-157 | a deletion keeps the store well formed, adds nothing and keeps the other buckets in order |
| `EdgeStore.DeleteKeepsContainers` | src/data/Project.js:156 | a deletion empties no container: every label and every source bucket stays filed |
| `EdgeStore.DeleteInsert` | src/data/Project.js:115-157 | deleting an edge just inserted into an existing bucket gives back the store |
| `GraphModel.Graph.RemoveEdge` | src/data/Project.js:159-169 | an unknown label fails with nothing changed; the edge is deleted as by `_deleteEdge`, then its mirror under the inverse; a missing mirror fails with the edge already gone; otherwise the store is the old one without the edge and its mirror; edges in step with their mirrors stay in step, whatever the outcome |
| `EdgeStore.LookupUnlinked` | src/data/Project.js:159-169 | a successful `removeEdge` makes exactly the edge's triple and the reversed triple under the inverse find nothing; every other triple is unchanged |
| `EdgeStore.UnlinkedWellFormed` | src/data/Project.js:159-169 | a successful `removeEdge` keeps the store well formed, adds nothing and keeps every container |
| `EdgeStore.UnlinkedLinked` | src/data/Project.js:96-169 | removing an edge just added (with its mirror) gives back the store, when the containers existed and the mirror is a different triple |
| `EdgeStore.LookupUnlinkedLinked` | src/data/Project.js:96-169 | add-then-remove as `getEdge` sees it: every triple finds what it found before, whatever containers the addition created |
| `EdgeStore.LookupDrop` | src/data/Project.js:90 | dropping a source container loses the triples under it and nothing else |
| `EdgeStore.DropEmpty` | src/data/Project.js:90 | dropping an emptied container changes no lookup |
| `EdgeStore.DropRetains` | src/data/Project.js:90 | dropping a container keeps the store well formed and adds nothing |
| `EdgeStore.RetainsLookup` | src/data/Project.js:74-94 | whatever a store retained from another still finds, the original found identically |
| `GraphModel.Graph.RemoveNode` | src/data/Project.js:74-94 | a missing key fails with nothing changed; otherwise the node is deleted and, whatever the outcome, every triple the cascade may not touch (neither an edge leaving the node nor the mirror of one) finds what it found before; on success every edge leaving the node under a specified label is gone with its mirror and its container, untouched triples are unchanged and nothing is added; a failure is a missing mirror pointing back to the node; when the node's edges have their mirrors it succeeds; edges in step with their mirrors stay in step |
| `GraphModel.Graph.ClearOutgoing` | src/data/Project.js:81-91 | one label of the cascade: the node's container is emptied, then dropped, which finishes the label; untouched triples are unchanged whatever the outcome; a failure is a missing mirror pointing back to the node |
| `GraphModel.Graph.EmptyContainer` | src/data/Project.js:84-88 | the inner loop removes the container's edges with `removeEdge` until it is empty, adding nothing and changing no untouched triple; a failure is a missing mirror pointing back to the node, impossible when the node's edges have their mirrors |
| `Pairing.LinkedInStep` | src/data/Project.js:109-112 | with every inverse declared back, a successful `addEdge` keeps every edge filed exactly when its mirror is, with the same data and order |
| `Pairing.RemovalInStep` | src/data/Project.js:159-169 | with every inverse declared back, `removeEdge` keeps every edge filed exactly when its mirror is, whether it succeeds or fails |
| `Pairing.UnlinkedInStep` | src/data/Project.js:164-168 | deleting an edge together with its mirror keeps the pairing |
| `Pairing.DeletedInStep` | src/data/Project.js:164-168 | when the mirror is gone once the edge is deleted, the edge was a self-loop that is its own mirror, and the pairing still holds |
| `Pairing.DropInStep` | src/data/Project.js:90 | dropping an emptied container keeps the pairing |
| `Cascade.ClearStep` | src/data/Project.js:84-87 | one `removeEdge` of the cascade adds nothing, leaves every untouched triple as it was (on failure too), shortens the node's container on success, fails only on a missing mirror pointing back to the node, and cannot fail when the node's edges have their mirrors |
| `Cascade.CascadeUnlink` | src/data/Project.js:86 | a successful `removeEdge` of an edge leaving the node keeps the cascade's invariant and shortens the container |
| `Cascade.IntactUnlinkSucceeds` | src/data/Project.js:86 | when the node's edges have their mirrors, removing one finds its mirror, and the others keep theirs |
| `Cascade.CascadeDrop` | src/data/Project.js:90 | dropping the emptied container finishes the label being visited |
| `Cascade.CascadeSkip` | src/data/Project.js:80-83 | a label without a container for the node is finished at once |
| `Cascade.CascadeStart` | src/data/Project.js:79 | before the first label the cascade's invariant holds |
| `Cascade.CascadeOutcome` | src/data/Project.js:74-94 | after the whole cascade the edges leaving the node and their mirrors find nothing, untouched triples (such as an edge into the node under a label without an inverse) find what they found before, and whatever is found was there before |
| `Scenarios.SiblingsByOrder` | src/data/Project.js:128-145 | adding siblings of order 5, 1 and 3 gives the bucket in order 1, 3, 5 |
| `Scenarios.FollowIsMirrored` | src/data/Project.js:109-112 | adding a `follows` edge files the `followedBy` mirror with the same data and order |
| `Scenarios.Refusals` | src/data/Project.js:66-103 | a taken node key, a taken triple and an unknown label are refused with their errors |
| `Scenarios.MirrorTaken` | src/data/Project.js:104-107 | an edge is refused when its mirror triple is already taken |
| `Scenarios.RemoveNodeUnlinks` | src/data/Project.js:74-94 | removing a user removes the `follows` edge leaving them and its `followedBy` mirror |
| `Scenarios.DanglingTarget` | src/data/Project.js:79-93 | under a label without an inverse, removing the target node leaves the incoming edge in place |
| `Scenarios.SelfInverseLoop` | src/data/Project.js:159-169 | a self-loop under a self-inverse label is filed once; removing it deletes it and then fails on the missing mirror |
| `Scenarios.CorrectedRemovesMirror` | src/data/Project.js:159-169 | with the mirror looked up under the target, `removeEdge` removes both edges |
| `GraphModel.Graph.RemoveEdgeAsWritten` | src/data/Project.js:159-169 | as written, `removeEdge` on a label with an inverse deletes the edge and then fails on the undeclared `toey`, leaving the mirror |
| `Scenarios.TypoLeavesMirror` | src/data/Project.js:167 | on a graph constructed with a `follows` edge and its mirror in its initial store, removing the edge as written deletes it, leaves the mirror and fails on `toey` |
| `GraphModel.Graph.AddEdgeAsWritten` | src/data/Project.js:96-105 | as written, `addEdge` fails for every specified label on the undefined `getEdge`, before anything changes |
| `Scenarios.AddEdgeNeverAdds` | src/data/Project.js:101 | as written, adding an edge under a specified label to a constructed graph fails on `getEdge` and leaves the store as it was |

## Left out

- The `Project` class (`src/data/Project.js:171-219`) is not part of this model: timers,
  `localStorage` persistence, JSON and autosave callbacks are I/O glue around the graph.
- `getComponentTemplate` (`src/data/Project.js:173-179`) is string templating unrelated to
  the graph and is not modelled.
- `sprintf` and `invariant` (`src/data/Project.js:15-26`) become structured error variants.
  The message text is not modelled.
- `keyOf` (`src/data/Project.js:11-13`) is only ever called on the literals `{type: null}`
  and `{label: null}`. It is modelled by those two results, the key functions `NodeSpecKey`
  and `EdgeSpecKey`, rather than as a function over arbitrary objects.
- JavaScript's key enumeration order is not modelled. Integer-like keys enumerate first and
  would break the order of a bucket. A bucket is an explicit sequence in ascending `order`.
- Which specified label `removeNode` visits first is not modelled. The choice is
  nondeterministic and the contract holds for every order.
- Keys that collide with `Object.prototype` properties, non-numeric `order` values and
  comparisons with `NaN` are not modelled. `order` is an unbounded integer.
- The specification fields `fromType`, `toType`, `bidirectional` and `unique` are carried as
  data only, as in the source. No operation checks node types against `nodeSpecs`, and
  `addEdge` does not check that its endpoints exist. The source does neither.
- `GraphModel.Graph.constructor` requires a supplied edge store to be well formed: sorted,
  distinct targets, edges under their own label and source. The source accepts any object.
- `Cascade.CascadeOutcome` promises the removal of a mirror of a self-loop leaving the node
  only as a possibility (`Touched`), not a certainty (`Severed`). Whether it is removed
  depends on the order in which labels are visited.
- The pairing of edges with their mirrors (`Pairing.InStep`) is proved only for
  specifications that declare every inverse back (`Pairing.Symmetric`). With a one-sided
  declaration, such as `likes` with inverse `likedBy` where `likedBy` has no inverse of its
  own, the source lets a `likedBy` edge be added without a `likes` edge. The pairing then
  does not hold, and the model does not promise it.
- `GraphModel.Graph.RemoveNode` guarantees success under `MirrorsIntact`, a sufficient
  condition. It does not characterise exactly when the cascade fails. A failed cascade's
  store is pinned by `Retains` and `Spared` (untouched triples unchanged), not edge by edge
  among the touched ones.
- `GraphModel.Graph.constructor` copies the supplied `nodes` and `edges` into the graph's
  fields by value. The source keeps the caller's own objects
  (`src/data/Project.js:60-61`), so a later mutation is visible through the caller's
  reference too. Aliasing between the graph and its caller is not modelled.
- An absent inverse label is represented by the empty string `""`
  (`Records.EdgeSpec.HasInverse`). The source's truthiness tests
  (`src/data/Project.js:105, 110, 166`) also treat `undefined` and `null` as absent. Those
  values have no separate representation here.
- Failing `invariant` calls are outcomes, not exceptions: a caller sees the outcome and the
  store as it was at the throw.

## Findings

| source | as written | input that shows it | evidently intended | confidence | as-written member | corrected member |
|---|---|---|---|---|---|---|
| src/data/Project.js:167 | the mirror is deleted with `_deleteEdge(spec.inverseLabel, toey, fromKey)`, and `toey` is undeclared, so the call throws after the edge itself was deleted | a graph constructed with `follows`/`followedBy` inverse specifications and, in its initial `edges`, `follows` alice→bob with its `followedBy` mirror; then `removeEdge("follows", "alice", "bob")`: the outcome is the `toey` failure, `follows` alice→bob is gone and `followedBy` bob→alice stays | the mirror is deleted under `toKey`, and add-then-remove gives back every lookup | not executed | `GraphModel.Graph.RemoveEdgeAsWritten`, `Scenarios.TypoLeavesMirror` | `GraphModel.Graph.RemoveEdge`, `EdgeStore.LookupUnlinkedLinked` |
| src/data/Project.js:101 | `addEdge` calls `this.getEdge`, which the graph does not define, so every call with a specified label throws before inserting | `addEdge("follows", "bob", "alice", "", 0)` on a graph that specifies `follows`: fails, and the edge store is unchanged | `getEdge` is the three-level lookup of the store, and a fresh triple is added with its mirror | not executed | `GraphModel.Graph.AddEdgeAsWritten`, `Scenarios.AddEdgeNeverAdds` | `GraphModel.Graph.AddEdge`, `EdgeStore.LookupLinked` |
