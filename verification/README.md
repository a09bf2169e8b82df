# TreeCRDT, modelled and proved in Dafny

TreeCRDT keeps a tree of nodes replicated: every replica logs insert, move, delete and payload
operations, ordered by (lamport, replica, counter), and the tree is what replaying that log yields.
Operations that arrive in order are applied directly, others cause a replay. A move or insert that
would close a cycle is refused. A delete is defensive: a node stays hidden only while the knowledge
recorded with the delete covers every change in its subtree. A Postgres backend keeps node rows,
payloads, cached tombstone flags and a parent-to-operation index in step with the log, incrementally
while it can and by a rebuild after it could not. Sibling order comes from byte keys allocated
between neighbours; causal knowledge is held in version vectors that can represent gaps; access is
granted by chains of delegated capability tokens scoped to subtrees.

The main results:

- **Convergence** (`Replicas.Convergence`): whatever the delivery order, duplicates and local edits, two
  replicas that were offered the same operations hold the same tree.
- **Forest** (`Semantics.FoldForestExactly`): a log yields a forest iff none of its operations links ROOT or
  TRASH; `FoldForest` and `FoldAcyclic` are the cases of well-formed and of arbitrary operations.
- **What a log leaves** (`RowLaws`): after every log each node's place is that of the last operation that
  could place it, its deletion all that its deletes knew, its last change all that the operations knew
  which marked it.
- **Flags** (`Tombstones.RefreshSuffices`, `Materialize.StepsRightFlags`): refreshing a small upward
  closure keeps every cached flag equal to its recursive definition; `DeltaComplete` says nothing
  visible changes outside the returned delta.
- **Clean means rebuilt** (`PgPipeline.EveryRunIsConsistent`): over every run of appends, rebuilds and local
  edits, with failures, a document that is not dirty equals a full rebuild, up to blank stray rows. These
  come from batches that hold a payload write: rows are preloaded for the target of a move of ROOT, which
  the engine then refuses, so a rebuild would not have them (`RootMoveStrays`). `AppendExactly` says exactly
  when the two are equal.
- **Delegation narrows, with two exceptions** (`Delegation.ChainSound`, `LinkExactly`): claims are JavaScript
  numbers and the checks compare them without excluding NaN, so a NaN `max_depth`, `exp` or `nbf` passes
  every comparison with a proof's bound and then bounds nothing (`NaNEscapes`); a link is sound exactly when
  it sets no NaN against a bound of its proof. And the check of the issuer's token itself can throw where
  it allows the leaf (`ThrowingProof`); it never denies there.
- **Placement** (`Placement.InsertPlacement`, `LinkPlacement`): a node appears where its key was allocated; the
  exact condition, on the tree before, for nothing else in the visible list to change.
- **Vectors are sets, keys are dense, caches are invisible**
  (`VersionVectors`, `OrderKeys` and `Placement`, `PgNodeCache`).

Layout: `Basics` and `Operations` hold values and the operation order; `NodeRows`, `Semantics`,
`Tombstones`, `RowLaws`, `Materialize`, `Replicas`, `Placement`, `Dialects`, `Patches` and `PgPipeline` are the
abstract
models and their theorems, `Disturbances` and `IndexGaps` concrete runs; `NodeStores`, `Engine`,
`Incremental`, `PgDocuments` and `PgNodeCache` are the mutable
components, each method proved against those models; `VersionVectors`, `OrderKeys`, `Scopes` and
`Delegation` stand on their own. In the tree model a version vector is the set of operation ids it stands
for; `VersionVectors` proves that the interval representation behaves as exactly that set, and that
equal sets have equal representations.

What the theorems assume, as the code does: every operation has lamport at least 1 (replay scans
`lamport > 0`); where visibility is concerned, inserts never name ROOT or TRASH as their node and moves
never name TRASH (`ApplyForestExactly` says which of them would do harm); one id means one operation; own
operations coming back from outside go through the path that raises the counter, or are already
covered by it (`DeliverKeepsCounters` gives the exact condition).

Where code and comments disagree, the model follows the code: `allocate_between` can fail although
left < right, delegation does not narrow where NaN meets a bound, local plans of hidden nodes record
fewer index rows than a delivery, and the second absorb step of the version-vector union is never needed.

## Model

| member | source | states |
|---|---|---|
| `Operations.KeyTransitive` | packages/treecrdt-core/src/ops.rs:223-233 | the (lamport, replica bytes, counter) order of operation keys is transitive |
| `Operations.KeyTotal` | packages/treecrdt-core/src/ops.rs:223-233 | any two keys are equal or ordered one way or the other |
| `Operations.KeyAsymmetric` | packages/treecrdt-core/src/ops.rs:223-233 | ordered keys differ and are not ordered the other way |
| `Operations.KeyOrder` | packages/treecrdt-core/src/ops.rs:223-233 | lamports decide; among equal lamports the replica bytes, whatever the counters; for one replica the counters |
| `Basics.LexExactly` | packages/treecrdt-core/src/ops.rs:223-233 | byte strings are ordered by the first byte after their common prefix, a proper prefix being smaller |
| `Operations.KnowledgeExactly` | packages/treecrdt-core/src/tree.rs:1166-1170 | an operation's knowledge is its own id, unless its counter is 0, and the state it carries |
| `Operations.SortLogSorted` | packages/treecrdt-core/src/traits.rs:47-58 | the scanned log is strictly increasing by key when ids are distinct |
| `Operations.SortLogElems` | packages/treecrdt-core/src/traits.rs:47-58 | sorting the log is a permutation of it |
| `Operations.SortedUnique` | packages/treecrdt-core/src/ops.rs:235-244 | a key-sorted log is determined by the set of its operations |
| `Operations.SameOpsSameOrder` | packages/treecrdt-core/src/traits.rs:47-58 | logs holding the same operations, in any arrival order, are scanned in the same order |
| `Operations.SortLogInOrder` | packages/treecrdt-core/src/tree.rs:228-241 | an operation newer than the head goes to the very end of the scanned log |
| `NodeRows.UnderStep` | packages/treecrdt-core/src/tree.rs:1180-1195 | lying in a subtree unfolds along the parent walk, both directions |
| `NodeRows.UnderAntisymmetric` | packages/treecrdt-core/src/tree.rs:929-945 | two nodes whose ending walks meet each other are the same node |
| `NodeRows.RelinkAcyclic` | packages/treecrdt-core/src/tree.rs:1064-1116 | re-parenting keeps every parent walk ending if the new parent does not lie under the node |
| `NodeRows.RelinkForest` | packages/treecrdt-core/src/tree.rs:904-927 | re-parenting an ordinary node outside its own subtree keeps the forest (tops, parents present, keys with parents) |
| `Semantics.FoldAppend` | packages/treecrdt-core/src/tree.rs:789-817 | replaying a concatenated log is replaying its parts one after the other |
| `Semantics.ApplyAcyclic` | packages/treecrdt-core/src/tree.rs:1022-1048 | one operation of any kind, well formed or not, keeps every walk ending |
| `Semantics.FoldAcyclic` | packages/treecrdt-core/src/tree.rs:1180-1195 | for every log of any operations every parent walk of the resulting tree ends, so the cycle check terminates |
| `Semantics.ApplyForest` | packages/treecrdt-core/src/tree.rs:1022-1048 | an operation that is not a breaking one keeps the forest; well-formed operations never break |
| `Semantics.ApplyForestExactly` | packages/treecrdt-core/src/tree.rs:1064-1116 | from a forest, the result is a forest iff the operation is neither an insert of ROOT or TRASH under a parent outside that node's subtree (in Postgres: of TRASH) nor a move of TRASH to itself or outside its subtree |
| `Semantics.ParentsStay` | packages/treecrdt-core/src/tree.rs:1064-1116 | a node that has a parent keeps having one, so a broken forest is never mended by later operations |
| `Semantics.FoldForestExactly` | packages/treecrdt-core/src/tree.rs:904-945 | a log of any operations yields a forest iff none of them breaks the tree it meets |
| `Semantics.FoldForest` | packages/treecrdt-core/src/tree.rs:904-945 | corollary: every log of well-formed operations yields a forest: ROOT and TRASH parentless and undeleted, walks end, parents present, order keys exactly where a live parent needs them |
| `Semantics.InsertingRootBreaksTheForest` | packages/treecrdt-core/src/tree.rs:1064-1081 | a failing input: in memory two inserts, one naming ROOT as node, make ROOT and a node each other's parent |
| `Semantics.MovingTrashBreaksTheForest` | packages/treecrdt-core/src/tree.rs:1093-1099 | another failing input: one move of TRASH to TRASH, for which the cycle test is skipped, makes TRASH its own parent |
| `Semantics.ApplyKeepsNodes` | packages/treecrdt-core/src/tree.rs:1022-1048 | no operation removes a node row or a payload entry |
| `Semantics.LastWriterExists` | packages/treecrdt-core/src/tree.rs:1134-1164 | computes the last writer of a node in a sorted log, and the payload entry of both dialects is exactly its entry, or absent |
| `Semantics.LastWriterWins` | packages/treecrdt-core/src/tree.rs:1025-1046 | a payload entry exists iff some operation writes it, and is the largest-key writer's, also when the insert carrying it was refused as a cycle |
| `Semantics.TiedWrites` | packages/treecrdt-core/src/tree.rs:1134-1164 | of two last writes with equal lamports the one whose replica has the larger bytes wins, whatever the counters |
| `RowLaws.PlacedExactly` | packages/treecrdt-core/src/tree.rs:1064-1116 | from a forest a well-formed insert or move puts its node under its target with its key iff the target does not lie under the node and the node is not ROOT, in particular always for TRASH; otherwise no row that was there changes, but for the mark of a payload an insert carries |
| `RowLaws.PlaceOfLog` | packages/treecrdt-core/src/tree.rs:1064-1116 | after every well-formed log a node's parent and key are those of the last operation that could place it, and it has none iff there is no such operation |
| `RowLaws.DeletedAtOfLog` | packages/treecrdt-core/src/tree.rs:1118-1132 | after every log deleted_at is missing iff no delete or tombstone names the node (or it is reserved), and otherwise is the union of all that those operations knew |
| `RowLaws.HiddenByLog` | packages/treecrdt-core/src/tree.rs:851-860 | after every log a node is hidden iff some delete names it and all its deletes together cover its subtree |
| `RowLaws.ConcurrentDeletesHide` | packages/treecrdt-core/src/tree.rs:1118-1132 | two deletes that each miss a change the other knows hide the node together |
| `RowLaws.LastChangeOfLog` | packages/treecrdt-core/src/tree.rs:1172-1178 | after every well-formed log last_change is the union of what those operations knew that placed the node, placed a node under it, moved one away from it, or won its payload |
| `Tombstones.ApplyLocal` | packages/treecrdt-core/src/tree.rs:1064-1178 | one operation changes rows of the op node, its old parent and its target only; only the op node changes parent, key or deletion; last_change grows by at most the operation's knowledge |
| `Tombstones.OutsideClosure` | packages/treecrdt-core/src/tree.rs:629-663 | outside the upward closure of the touched nodes no visibility changes |
| `Tombstones.RefreshSuffices` | packages/treecrdt-core/src/tree.rs:629-663 | if all cached flags were right before a well-formed operation, refreshing only the upward closure of old parent, target parent and op node makes all of them right after it |
| `Tombstones.RefreshStable` | packages/treecrdt-core/src/tree.rs:570-598 | refreshing any closure of right flags changes none |
| `Tombstones.KnowingDeleteHides` | packages/treecrdt-core/src/tree.rs:1118-1132 | a delete whose known state covers the subtree hides the node at once |
| `Tombstones.AcceptedKnowledge` | packages/treecrdt-core/src/tree.rs:1064-1178 | an accepted change adds to each subtree it lands in exactly its own knowledge and that of its node's subtree |
| `Tombstones.RevivalExactly` | packages/treecrdt-core/src/tree.rs:851-860 | an ancestor stays hidden after an accepted change below it iff it was hidden and its deleted_at covers the change and the incoming subtree |
| `Tombstones.UnknownChangeRevives` | packages/treecrdt-core/src/tree.rs:1118-1178 | an accepted change whose id is outside deleted_at leaves every node above it visible |
| `Materialize.StepsRightFlags` | packages/treecrdt-core/src/tree.rs:501-547 | after every in-order run each cached tombstone flag equals the recomputed one, and the tree is the fold of the run |
| `Materialize.DeltaComplete` | packages/treecrdt-core/src/tree.rs:112-149 | the returned delta holds every node but TRASH whose parent, order key, payload, cached flag or visibility changed |
| `Materialize.DeltaExactly` | packages/treecrdt-core/src/tree.rs:112-149 | besides nodes whose flag flipped the delta names the operation's node and, for other than payload writes, its parent before and its target, never TRASH, and nothing else |
| `Materialize.QuietWriteDelta` | packages/treecrdt-core/src/tree.rs:112-149 | a payload write that flips no flag reports its own node only |
| `Materialize.StepsIndex` | packages/treecrdt-core/src/tree.rs:520-536 | after every in-order run each operation is indexed under its node's previous parent and its target parent, and every live node's payload writer under its parent |
| `Materialize.StepsIndexExactly` | packages/treecrdt-core/src/tree.rs:520-536 | a row is in the index after an in-order run iff it was before, or stands for an operation under its node's parent at that moment or its target, or for a payload writer asked to a new parent; new rows are never under TRASH |
| `Materialize.RebuildIndex` | packages/treecrdt-core/src/tree.rs:745-780 | the rebuilt index satisfies the same two clauses |
| `Materialize.RebuildIndexExactly` | packages/treecrdt-core/src/tree.rs:745-780 | a row is in the rebuilt index iff it stands for an operation under its node's parent at that moment or its target, or for the payload writer of a node now under a live parent |
| `Materialize.IncrementalAgreesWithRebuild` | packages/treecrdt-core/src/tree.rs:717-783 | applying a log in order and rebuilding it give equal trees and flags, and the rebuilt index is contained in the incremental one |
| `Replicas.ReplayInv` | packages/treecrdt-core/src/tree.rs:789-817 | a replay of any stored log establishes the replica invariant whatever the derived state was |
| `Replicas.SinceZeroExactly` | packages/treecrdt-core/src/traits.rs:235-237 | replay visits exactly the logged operations with a positive lamport |
| `Replicas.ReceiveInv` | packages/treecrdt-core/src/tree.rs:442-499 | a delivery, in order, out of order or duplicate, keeps the invariant |
| `Replicas.MintedIsNewest` | packages/treecrdt-core/src/tree.rs:947-959 | a locally minted operation has a new id and a key above every logged key, so committing without an order check is right |
| `Replicas.CommitInv` | packages/treecrdt-core/src/tree.rs:947-959 | a local edit keeps the invariant and appends exactly the minted operation |
| `Replicas.EditsAreContiguous` | packages/treecrdt-core/src/tree.rs:947-959 | a replica numbers its own edits 1, 2, 3, ... in counter and lamport, without gaps |
| `Replicas.DeliveriesRaise` | packages/treecrdt-core/src/traits.rs:190-203 | deliveries raise the clock to the largest lamport seen and the counter to the largest own one, exactly |
| `Replicas.InvReady` | packages/treecrdt-core/src/tree.rs:205-226 | in every reachable state clock and counter cover the log and all payload writers |
| `Replicas.RunInv` | packages/treecrdt-core/src/tree.rs:442-457 | the invariant holds after every run of deliveries, local edits, failed edits and replays |
| `Replicas.FreshInv` | packages/treecrdt-core/src/tree.rs:156-172 | a new replica over empty storage satisfies the invariant |
| `Replicas.DeliverKeepsCounters` | packages/treecrdt-core/src/tree.rs:442-457 | the path without counter update keeps the counter above all own operations iff an own, new, in-order operation was already covered |
| `Replicas.UncoveredEditIsLost` | packages/treecrdt-core/src/tree.rs:464-469 | otherwise the next local edit reuses a taken id and changes neither log nor tree |
| `Replicas.RunLog` | packages/treecrdt-core/src/traits.rs:226-233 | the log ends with exactly the operations delivered or minted, duplicates stored once |
| `Replicas.Convergence` | packages/treecrdt-core/src/tree.rs:442-457 | two runs offering the same operations in any order, with duplicates and any mix of remote and local, end with equal trees, heads, counts and knowledge: the fold of the operations in key order |
| `Replicas.AnyDeliveryOrder` | packages/treecrdt-core/src/tree.rs:464-499 | delivering the same operations to a replica in any two orders, with any repetitions, ends in the same tree |
| `Replicas.PayloadOfRun` | packages/treecrdt-core/src/tree.rs:1134-1164 | after every run a node's payload is that of the largest-key writer offered |
| `Replicas.LargestObserved` | packages/treecrdt-core/src/version_vector.rs:305-310 | the largest observed counter of a replica is the largest one in the log |
| `VersionVectors.CanonicalUnique` | packages/treecrdt-core/src/version_vector.rs:10-17 | canonical forms standing for equal sets are identical |
| `VersionVectors.UnionCommutes` | packages/treecrdt-core/src/version_vector.rs:143-189 | union is commutative on representations |
| `VersionVectors.UnionAssociates` | packages/treecrdt-core/src/version_vector.rs:143-189 | union is associative on representations |
| `VersionVectors.UnionIdempotent` | packages/treecrdt-core/src/version_vector.rs:143-189 | union with itself gives the same representation back |
| `VersionVectors.MergeSorted` | packages/treecrdt-core/src/version_vector.rs:158-172 | the sweep over ranges sorted by start yields disjoint, non-adjacent ranges with the same members, skipping malformed ones |
| `VersionVectors.ReplicaVersion.AbsorbFrontierRanges` | packages/treecrdt-core/src/version_vector.rs:93-105 | absorbing restores the canonical form and keeps the set |
| `VersionVectors.ReplicaVersion.MergeWithNext` | packages/treecrdt-core/src/version_vector.rs:81-91 | joins two ranges that meet or touch and leaves everything else |
| `VersionVectors.ReplicaVersion.Observe` | packages/treecrdt-core/src/version_vector.rs:27-41 | observing is insertion into the set (nothing for counter 0) and keeps the canonical form |
| `VersionVectors.ReplicaVersion.ObserveBeyond` | packages/treecrdt-core/src/version_vector.rs:42-79 | the range part of observe: grow, join or add a range, same statement |
| `VersionVectors.ReplicaVersion.Union` | packages/treecrdt-core/src/version_vector.rs:143-189 | the set union for any two representations; canonical afterwards iff it was before or the right operand is not empty |
| `VersionVectors.ReplicaVersion.ContainsRange` | packages/treecrdt-core/src/version_vector.rs:107-129 | true iff the range is well formed and all its counters are in the set |
| `VersionVectors.ReplicaVersion.IsSupersetOf` | packages/treecrdt-core/src/version_vector.rs:131-141 | true iff the set contains the other's and the other holds no malformed range |
| `VersionVectors.ReplicaVersion.MaxSeen` | packages/treecrdt-core/src/version_vector.rs:20-25 | the largest member, 0 for the empty set |
| `VersionVectors.VersionVector.Observe` | packages/treecrdt-core/src/version_vector.rs:285-287 | inserts one operation id |
| `VersionVectors.VersionVector.Merge` | packages/treecrdt-core/src/version_vector.rs:289-293 | union of the known operation ids, for any right operand |
| `VersionVectors.VersionVector.IsAwareOf` | packages/treecrdt-core/src/version_vector.rs:295-303 | true iff all ids of the other are known and the other holds no malformed range |
| `VersionVectors.VersionVector.Frontier` | packages/treecrdt-core/src/version_vector.rs:312-315 | all counters up to the frontier are known and the next one is not |
| `VersionVectors.VersionVector.Get` | packages/treecrdt-core/src/version_vector.rs:305-310 | the largest known counter of the replica, 0 when there is none |
| `VersionVectors.VectorsUnique` | packages/treecrdt-core/src/version_vector.rs:192-198 | vectors knowing the same operations hold the same entries, up to empty ones |
| `OrderKeys.DecodeEncode` | packages/treecrdt-core/src/order_key.rs:9-27 | decoding encoded digits gives them back |
| `OrderKeys.EncodeDecode` | packages/treecrdt-core/src/order_key.rs:9-27 | encoding decoded bytes gives them back, for every even length |
| `OrderKeys.EncodeOrder` | packages/treecrdt-core/src/order_key.rs:9-27 | keys compare as bytes exactly as their digits compare |
| `OrderKeys.EncodeDigits` | packages/treecrdt-core/src/order_key.rs:21-27 | the loop computes the big-endian encoding |
| `OrderKeys.ChooseInRange` | packages/treecrdt-core/src/order_key.rs:55-63 | the chosen digit lies in the closed range |
| `OrderKeys.AllocateBetween` | packages/treecrdt-core/src/order_key.rs:71-112 | terminates on all inputs, with the exact condition of each failure; a key is the left digits padded to the stopping depth and one digit strictly between, within 10 of the side the sample picks |
| `OrderKeys.StopDepth` | packages/treecrdt-core/src/order_key.rs:78-109 | the walk stops at the first depth whose padded gap is not 0 or 1, at most the longer key's length |
| `OrderKeys.AllocatedIsBetween` | packages/treecrdt-core/src/order_key.rs:71-112 | for well-formed ordered bounds every allocated key is strictly between them as bytes, well formed again, and at most one digit longer than the longer bound |
| `OrderKeys.WhenAllocationFails` | packages/treecrdt-core/src/order_key.rs:78-86 | on well-formed bounds no digit overflows, the error occurs iff at some depth the right digit is below the left one after gaps of 0 or 1 only, and never with an absent bound |
| `OrderKeys.OrderedBoundsCanFail` | packages/treecrdt-core/src/order_key.rs:78-86 | [5,9] and [6,3] are well formed, ordered and have a key between them, yet allocation stops with the error |
| `NodeStores.ChildListUnique` | packages/treecrdt-postgres-rs/src/store.rs:567-588 | a child list sorted by (order key, id) with exactly the children is determined by the rows |
| `NodeStores.ChildListOrder` | packages/treecrdt-postgres-rs/src/store.rs:567-588 | in a child list the smaller order key comes first, and of equal keys the smaller id |
| `NodeStores.SameRowsSameLists` | packages/treecrdt-core/src/traits.rs:407-448 | stores with equal rows hold equal child lists, so converged trees have equal child lists |
| `NodeStores.SubtreeUnfolds` | packages/treecrdt-core/src/traits.rs:128-140 | the union over a node and its children's subtrees is the knowledge of its subtree |
| `NodeStores.NodeStore.constructor` | packages/treecrdt-core/src/traits.rs:351-356 | a new store holds ROOT alone, with an empty key |
| `NodeStores.NodeStore.Reset` | packages/treecrdt-core/src/traits.rs:374-378 | a reset store holds ROOT alone, with an empty key |
| `NodeStores.NodeStore.EnsureNode` | packages/treecrdt-core/src/traits.rs:380-389 | adds a blank row if missing; lists and flags stay right |
| `NodeStores.NodeStore.Detach` | packages/treecrdt-core/src/traits.rs:407-421 | clears parent and key and removes the node from its parent's list; all lists still equal the sorted child sets, TRASH's stays empty |
| `NodeStores.NodeStore.PlaceAmong` | packages/treecrdt-core/src/traits.rs:433-444 | the scan stops at the first sibling the new one precedes |
| `NodeStores.NodeStore.Attach` | packages/treecrdt-core/src/traits.rs:423-448 | links a detached node; all lists still equal the sorted child sets, TRASH's stays empty |
| `NodeStores.NodeStore.MergeLastChange` | packages/treecrdt-core/src/traits.rs:463-466 | unions one node's last_change, nothing else |
| `NodeStores.NodeStore.MergeDeletedAt` | packages/treecrdt-core/src/traits.rs:472-480 | unions one node's deleted_at, creating it if absent |
| `NodeStores.NodeStore.SetTombstone` | packages/treecrdt-core/src/traits.rs:454-457 | sets one cached flag, nothing else |
| `NodeStores.NodeStore.SubtreeVersionVector` | packages/treecrdt-core/src/traits.rs:128-140 | the recursion over child lists terminates and is the union of last_change over exactly the nodes whose parent walk meets the node (TRASH: its own alone) |
| `Placement.SiblingsKeepVisibility` | packages/treecrdt-core/src/tree.rs:968-1003 | inserting a new node changes the visibility of none of its siblings |
| `Placement.InsertPlacement` | packages/treecrdt-core/src/tree.rs:968-1003 | a new node with a key allocated between visible neighbours appears exactly there in the visible child list, hidden siblings notwithstanding, and the visible keys stay well formed and strictly increasing |
| `Placement.SiblingVisibility` | packages/treecrdt-core/src/tree.rs:1064-1116 | exactly which siblings are hidden after an accepted insert or move, by the tree before it: one the node was not inside keeps its visibility; one it was inside is hidden iff its delete covers what remains of its subtree and, for a move, which marks the old parent, the operation |
| `Placement.NodeVisibility` | packages/treecrdt-core/src/tree.rs:851-860 | the node itself is hidden afterwards iff it was and its delete covers the operation |
| `Placement.LinkPlacement` | packages/treecrdt-core/src/tree.rs:968-1003 | an accepted insert or move of any node, new or not, puts it among the siblings that were visible exactly where its key was allocated; that is the whole visible list iff the tree before the change is undisturbed by it: the node's own delete does not cover the operation, and no sibling the node is taken out of gets hidden or comes back |
| `Placement.MoveUndisturbed` | packages/treecrdt-core/src/tree.rs:1083-1116 | a move no delete has heard of leaves all other visibility alone iff it does not take its node out of a hidden sibling |
| `Placement.InsertUndisturbed` | packages/treecrdt-core/src/tree.rs:1064-1081 | an insert no delete has heard of does iff its node was not all that kept a deleted sibling visible |
| `Disturbances.MoveBringsSiblingBack` | packages/treecrdt-core/src/tree.rs:1104-1115 | a concrete log after which a move makes a hidden sibling visible |
| `Disturbances.ReinsertHidesSibling` | packages/treecrdt-core/src/tree.rs:1074-1079 | a concrete log after which inserting an existing node, whose old parent is not touched, hides a visible sibling |
| `Engine.OpLog.Apply` | packages/treecrdt-core/src/traits.rs:226-233 | stores an operation iff its id is new; the no-op log accepts everything and keeps nothing |
| `Engine.OpLog.Scan` | packages/treecrdt-core/src/traits.rs:47-58 | visits the operations with positive lamport in key order |
| `Engine.TreeCrdt.constructor` | packages/treecrdt-core/src/tree.rs:205-226 | counter and clock start from the stored log; derived state is taken from the stores |
| `Engine.TreeCrdt.IntroducesCycle` | packages/treecrdt-core/src/tree.rs:1180-1195 | the walk terminates whenever all walks end, and answers whether the parent lies in the node's subtree, no for ROOT and TRASH |
| `Engine.TreeCrdt.ApplyInsert` | packages/treecrdt-core/src/tree.rs:1064-1081 | for every insert, reserved nodes included: does to rows and lists what the insert semantics says; walks keep ending |
| `Engine.TreeCrdt.ApplyMove` | packages/treecrdt-core/src/tree.rs:1083-1116 | for every move, reserved nodes included: does to rows and lists what the move semantics says; walks keep ending |
| `Engine.TreeCrdt.ApplyDelete` | packages/treecrdt-core/src/tree.rs:1118-1132 | records the delete's knowledge, nothing for ROOT and TRASH |
| `Engine.TreeCrdt.ApplyPayload` | packages/treecrdt-core/src/tree.rs:1134-1164 | writes only over an older writer |
| `Engine.TreeCrdt.ApplyForward` | packages/treecrdt-core/src/tree.rs:1022-1062 | for every operation: refines the abstract semantics, returns parent and order key before it, and keeps a forest iff the operation does not break it |
| `Engine.TreeCrdt.IsTombstoned` | packages/treecrdt-core/src/tree.rs:851-860 | true iff deleted_at exists and contains the knowledge of the whole subtree |
| `Engine.TreeCrdt.RefreshTombstonesUpward` | packages/treecrdt-core/src/tree.rs:618-663 | the stack and visited-set loop terminates, recomputes exactly the upward closure and returns exactly the nodes whose flag changed |
| `Engine.TreeCrdt.SubtreeMemo` | packages/treecrdt-core/src/tree.rs:666-693 | the memoised recursion returns the subtree's knowledge, keeps the cache right and never reports a cycle |
| `Engine.TreeCrdt.DeletedFlags` | packages/treecrdt-core/src/tree.rs:695-715 | one shared memo gives the right flag of every deleted node |
| `Engine.TreeCrdt.RefreshAllTombstones` | packages/treecrdt-core/src/tree.rs:665-715 | recomputes every deleted node's flag and keeps the others |
| `Engine.TreeCrdt.ReplayFromStorage` | packages/treecrdt-core/src/tree.rs:789-817 | for every log: state becomes that of the abstract replay; the op records of a rebuild are gathered |
| `Engine.TreeCrdt.Backfill` | packages/treecrdt-core/src/tree.rs:762-780 | yields the payload-writer rows of all nodes with live parents |
| `Engine.TreeCrdt.ReplayWithMaterialization` | packages/treecrdt-core/src/tree.rs:717-783 | tree, flags and index are those of a rebuild of the log |
| `Engine.TreeCrdt.ApplyRemote` | packages/treecrdt-core/src/tree.rs:442-457 | for every operation: refines the abstract delivery |
| `Engine.TreeCrdt.ApplyRemoteWithDelta` | packages/treecrdt-core/src/tree.rs:464-499 | for every operation: refines the abstract delivery with counter update; reports a delta iff the operation was new and in order, with the node's previous parent and key and the directly affected nodes |
| `Engine.TreeCrdt.ApplyRemoteWithMaterialization` | packages/treecrdt-core/src/tree.rs:501-550 | for every operation that does not break the forest when applied: refines one materialization step of tree, flags and index with its delta; index and result are untouched otherwise |
| `Engine.TreeCrdt.Children` | packages/treecrdt-core/src/tree.rs:819-831 | the visible children in sibling order; none for TRASH |
| `Engine.TreeCrdt.VisibleParent` | packages/treecrdt-core/src/tree.rs:833-841 | TRASH iff the node is hidden; otherwise none for a node moved to TRASH, else the parent |
| `Engine.VisibleParentLists` | packages/treecrdt-core/src/tree.rs:819-841 | a node is in the visible child list of a live parent iff that is its visible parent |
| `Engine.TreeCrdt.AllocateChildKeyAfter` | packages/treecrdt-core/src/tree.rs:968-1003 | an empty key under TRASH; otherwise the not-a-child error iff `after` is no visible sibling other than the node, else a key allocated between the neighbours of the position after it, or the no-key error where these bounds cannot allocate |
| `Engine.TreeCrdt.CommitLocal` | packages/treecrdt-core/src/tree.rs:947-959 | stores and applies the operation, refreshes the closure, moves the head |
| `Engine.TreeCrdt.LocalInsertAfter` | packages/treecrdt-core/src/tree.rs:243-256 | mints, commits and places the node directly after `after` (or first): the visible list gains just a new node there; a node that had a row takes that place among the visible siblings unless the insert is refused, and that is the whole visible list iff the tree before is undisturbed; it fails exactly when `after` is no visible sibling or the keys around the position cannot allocate, and then only clock and counter moved |
| `Engine.TreeCrdt.LocalMoveAfter` | packages/treecrdt-core/src/tree.rs:324-337 | mints and commits the move; unless refused, the node sits directly after `after` among the visible siblings, and that is the whole visible list iff the tree before is undisturbed; on failure, with the same exact conditions as for inserts, only clock and counter moved |
| `Engine.TreeCrdt.LocalDelete` | packages/treecrdt-core/src/tree.rs:370-377 | the minted delete carries the subtree's knowledge, and any node but ROOT and TRASH is tombstoned at once |
| `Engine.TreeCrdt.LocalSetPayload` | packages/treecrdt-core/src/tree.rs:398-416 | the minted write wins: the node holds its content and writer |
| `Engine.OutcomePlaces` | packages/treecrdt-core/src/tree.rs:968-1003 | a successful key allocation for a new node under a live parent implies the placement of the insert |
| `Engine.EnginesConverge` | packages/treecrdt-core/src/tree.rs:442-457 | two engines at the end of runs that offered the same operations have equal trees and equal child lists of every node |
| `Dialects.DialectsAgree` | packages/treecrdt-postgres-rs/src/store.rs:620-690 | a well-formed log yields the same tree in memory and in Postgres, but for the order keys of nodes under TRASH, which Postgres drops |
| `Dialects.StripReads` | packages/treecrdt-postgres-rs/src/store.rs:567-588 | that difference shows in no parent, vector, visibility, child list or visible list of a live node |
| `Dialects.DialectsConverge` | packages/treecrdt-core/src/tree.rs:442-457 | an in-memory replica and a Postgres one that were offered the same well-formed operations hold that same tree |
| `Incremental.Pigeonhole` | packages/treecrdt-postgres-rs/src/store.rs:1451-1453 | as many accepted refs as operations leave no duplicate in the batch |
| `Incremental.SelectInsertedOps` | packages/treecrdt-postgres-rs/src/store.rs:1443-1479 | exactly one operation per accepted ref, the first of each, in batch order |
| `Incremental.FirstOfExactly` | packages/treecrdt-postgres-rs/src/store.rs:1443-1479 | selected are exactly the first operations with each accepted id, in batch order |
| `Incremental.BulkInsert` | packages/treecrdt-postgres-rs/src/store.rs:1357-1441 | refuses the whole batch, leaving the log alone, iff a delete in it carries no known state; otherwise appends exactly the new operations and returns their refs once each |
| `Incremental.DeltasComplete` | packages/treecrdt-core/src/materialization.rs:95-125 | the affected nodes of a batch include every node but TRASH a reader sees changed by the whole batch |
| `Incremental.ApplyIncrementalOps` | packages/treecrdt-core/src/materialization.rs:59-125 | errors exactly when dirty or when the oldest operation precedes the head; otherwise tree, flags, index, head, seq and deltas of the sorted batch, the replay branch never taken |
| `Patches.PatchApply` | packages/treecrdt-postgres-rs/src/store.rs:294-427 | placeholder rows and the key of ROOT's row influence no other row or payload of any operation |
| `Patches.PatchSteps` | packages/treecrdt-postgres-rs/src/store.rs:1481-1538 | materializing a batch over placeholder rows gives the same flags, index and tree plus those rows |
| `Patches.PaddedFold` | packages/treecrdt-postgres-rs/src/store.rs:1481-1538 | trees that differ in placeholder rows and ROOT's row only still do after every run |
| `Patches.FoldKeys` | packages/treecrdt-core/src/tree.rs:1022-1116 | the node rows of a replayed log are exactly those of its op nodes and target parents, except the target of a refused move of ROOT |
| `Patches.PreloadInvisibleExactly` | packages/treecrdt-postgres-rs/src/store.rs:294-427 | preloading a batch changes its outcome iff it holds a payload write and a move of ROOT whose target has no row and no other operation creates one |
| `PgPipeline.EnsureInv` | packages/treecrdt-postgres-rs/src/store.rs:1746-1799 | a rebuild makes every document clean and not dirty, with the same log, and leaves a dirty one without stray rows |
| `PgPipeline.AppendExactly` | packages/treecrdt-postgres-rs/src/store.rs:1594-1708 | after an append on the incremental path the stray rows are the old ones no new operation creates plus those its preload leaves, and the document equals its rebuild iff there are none |
| `PgPipeline.RootMoveStrays` | packages/treecrdt-postgres-rs/src/store.rs:294-427 | a concrete two-operation batch after which a document that is not dirty has a row its rebuild lacks, so the two differ |
| `PgPipeline.AppendInv` | packages/treecrdt-postgres-rs/src/store.rs:1594-1708 | an append keeps the invariant, also when the SQL of its materialization stops half-way |
| `PgPipeline.LocalInv` | packages/treecrdt-postgres-rs/src/local_ops.rs:48-115 | a local session keeps the invariant, also when finishing it fails |
| `PgPipeline.SessionOpIsNewest` | packages/treecrdt-postgres-rs/src/local_ops.rs:48-76 | an operation minted from the log's clock and counter is new and above the whole log |
| `PgPipeline.PgNextInv` | packages/treecrdt-postgres-rs/src/store.rs:1594-1708 | every step keeps the invariant |
| `PgPipeline.EveryRunIsConsistent` | packages/treecrdt-postgres-rs/src/store.rs:1594-1799 | in every state of every run of well-formed operations a document that is not dirty equals a full rebuild of its log in nodes, flags and payloads (up to ROOT's row presence and key) plus a blank row per stray, each stray being the target of a move of ROOT in the log; it equals the rebuild itself iff there is no stray; its head is the largest key and head_seq the log length |
| `PgPipeline.RunWithoutRootMoves` | packages/treecrdt-postgres-rs/src/store.rs:1594-1799 | if the log moves no ROOT, a document that is not dirty equals its rebuild |
| `PgPipeline.PgRunLog` | packages/treecrdt-postgres-rs/src/store.rs:1594-1799 | the log of a document holds exactly the operations its run brought in, also while dirty or when a materialization failed |
| `PgPipeline.DocumentsConverge` | packages/treecrdt-postgres-rs/src/store.rs:1594-1799 | two clean documents that were brought the same operations, in any batches, order and sessions, agree on flags, payloads, head and length, and on the tree up to ROOT's row and stray rows |
| `PgPipeline.LateBatchIsRepaired` | packages/treecrdt-postgres-rs/src/store.rs:1594-1799 | a batch with an operation older than the head only extends the log, sets dirty and may leave preloaded rows; the next rebuild restores exactly the rebuilt tables |
| `PgPipeline.IndexCoversRebuild` | packages/treecrdt-postgres-rs/src/store.rs:1594-1799 | in every run of appends, rebuilds and local edits whose sessions write what an in-order delivery would, the index of a clean document contains the rebuilt index and every live payload is findable |
| `PgDocuments.PlainPlanCovers` | packages/treecrdt-core/src/tree.rs:379-440 | the plan of a local delete or payload write records what a delivery would iff the node is not hidden under a live parent |
| `PgDocuments.MovePlanCovers` | packages/treecrdt-core/src/tree.rs:339-368 | the plan of a local move does iff the node is not hidden under a live parent other than the target |
| `PgDocuments.InsertPlanCovers` | packages/treecrdt-core/src/tree.rs:284-304 | the plan of a local insert does iff the node has no live parent but the target and brings no payload there that another operation wrote |
| `PgDocuments.PlanCoversExactly` | packages/treecrdt-core/src/tree.rs:284-440 | all plans together: they record what a delivery would iff the tree the session starts from shows no gap |
| `PgDocuments.PlanRowsOnly` | packages/treecrdt-core/src/tree.rs:284-440 | a plan writes its own operation under its target or the visible parent, for a move the payload writer under the target, nothing under TRASH and nothing else |
| `PgDocuments.GapFreeIndex` | packages/treecrdt-postgres-rs/src/local_ops.rs:48-115 | in every run of appends, rebuilds and local edits whose plans have no gap the index of a clean document contains the rebuilt index and every live payload is findable |
| `IndexGaps.LocalWriteIsNotFindable` | packages/treecrdt-postgres-rs/src/local_ops.rs:155-182 | a run of local insert, delete and payload write after which a clean document's index lacks the row of its visible node's payload, which a rebuild writes |
| `IndexGaps.PlansAreLocal` | packages/treecrdt-core/src/tree.rs:379-440 | the known state and the hints of that run are those the local plans compute |
| `PgDocuments.PgDocument.constructor` | packages/treecrdt-postgres-rs/src/store.rs:83-92 | a new document has empty tables and satisfies the invariant |
| `PgDocuments.PgDocument.AppendOps` | packages/treecrdt-postgres-rs/src/store.rs:1594-1708 | refines the append step; an error iff a delete carries no known state, and then nothing changes; otherwise counts the new operations and returns the deltas of the sorted batch, none when the document ends dirty |
| `PgDocuments.PgDocument.PreloadForOps` | packages/treecrdt-postgres-rs/src/store.rs:294-427 | adds placeholder rows for exactly the referenced nodes without a row |
| `PgDocuments.PgDocument.MaterializeOpsInOrder` | packages/treecrdt-postgres-rs/src/store.rs:1481-1538 | materializes the accepted operations over the preloaded rows, or marks the document dirty when they precede the head |
| `PgDocuments.PgDocument.RebuildTables` | packages/treecrdt-postgres-rs/src/store.rs:1757-1799 | clears the tables and replays the log into them |
| `PgDocuments.PgDocument.EnsureMaterialized` | packages/treecrdt-postgres-rs/src/store.rs:1746-1799 | refines the rebuild step |
| `PgDocuments.PgDocument.BeginLocalOp` | packages/treecrdt-postgres-rs/src/local_ops.rs:48-76 | a clean document and an engine whose clock and counter come from the log |
| `PgDocuments.PgDocument.FinishLocalOp` | packages/treecrdt-postgres-rs/src/local_ops.rs:78-115 | refines the local step: flags right, plan rows recorded, head moved |
| `PgDocuments.PgDocument.LocalInsert` | packages/treecrdt-postgres-rs/src/local_ops.rs:118-135 | refines the local step, or leaves the document as it was when it fails |
| `PgDocuments.PgDocument.LocalMove` | packages/treecrdt-postgres-rs/src/local_ops.rs:137-153 | refines the local step with the visible old parent as hint, or leaves the document as it was |
| `PgDocuments.PgDocument.LocalDelete` | packages/treecrdt-postgres-rs/src/local_ops.rs:155-167 | refines the local step, and the node's stored flag is set |
| `PgDocuments.PgDocument.LocalPayload` | packages/treecrdt-postgres-rs/src/local_ops.rs:169-182 | refines the local step |
| `PgDocuments.PgDocument.Rollback` | packages/treecrdt-postgres-rs/src/local_ops.rs:26-46 | restores the log, all derived tables and the metadata |
| `PgNodeCache.PgNodeStore.NodeRow` | packages/treecrdt-postgres-rs/src/store.rs:282-289 | answers as the uncached table would and remembers the answer, present or absent |
| `PgNodeCache.PgNodeStore.EnsureNode` | packages/treecrdt-postgres-rs/src/store.rs:511-547 | the view gains a blank row if missing |
| `PgNodeCache.PgNodeStore.Detach` | packages/treecrdt-postgres-rs/src/store.rs:590-618 | the view changes as the uncached table |
| `PgNodeCache.PgNodeStore.Attach` | packages/treecrdt-postgres-rs/src/store.rs:620-690 | the view changes as the uncached table; no key under TRASH |
| `PgNodeCache.PgNodeStore.SetTombstone` | packages/treecrdt-postgres-rs/src/store.rs:699-726 | the view changes as the uncached table |
| `PgNodeCache.PgNodeStore.MergeLastChange` | packages/treecrdt-postgres-rs/src/store.rs:739-757 | the view changes as the uncached table although only the cache is written |
| `PgNodeCache.PgNodeStore.MergeDeletedAt` | packages/treecrdt-postgres-rs/src/store.rs:770-798 | the view changes as the uncached table |
| `PgNodeCache.PgNodeStore.Reset` | packages/treecrdt-postgres-rs/src/store.rs:482-509 | the view is ROOT alone and nothing stale survives |
| `PgNodeCache.PgNodeStore.Children` | packages/treecrdt-postgres-rs/src/store.rs:567-588 | the children of the view in order of order key and id, none for TRASH |
| `PgNodeCache.PgNodeStore.Preload` | packages/treecrdt-postgres-rs/src/store.rs:294-427 | the referenced rows become those of the table, blank where missing; the view gains just the missing rows iff no referenced row has a buffered change |
| `PgNodeCache.PgNodeStore.FlushLastChange` | packages/treecrdt-postgres-rs/src/store.rs:432-478 | the table equals the view and nothing is pending; the view is unchanged |
| `PgNodeCache.PgNodeStore.PerformAll` | packages/treecrdt-postgres-rs/src/store.rs:481-811 | for every sequence of calls and interleaved reads all reads answer as the uncached table, and the flushed table is that table |
| `PgNodeCache.TableIsNodeStore` | packages/treecrdt-postgres-rs/src/store.rs:481-811 | on rows and flags each table write of an engine call is the engine's node-store operation in the Postgres dialect |
| `PgNodeCache.TableRunIsNodeStore` | packages/treecrdt-postgres-rs/src/store.rs:481-811 | the same for every sequence of engine calls |
| `PgNodeCache.RunBoth` | packages/treecrdt-postgres-rs/src/store.rs:481-811 | the cached store and the engine's node store, driven by the same calls from equal contents, end with equal rows, flags and child lists, the table flushed and nothing pending |
| `PgNodeCache.BlanksArePatches` | packages/treecrdt-postgres-rs/src/store.rs:294-427 | the rows a preload adds are the placeholder rows of the pipeline model |
| `Scopes.EvaluateScope` | packages/treecrdt-auth/src/sqlite.ts:54-90 | the bounded loop computes the verdict of the ancestor walk, max depth being any JavaScript number, NaN included |
| `Scopes.AllowsExactly` | packages/treecrdt-auth/src/sqlite.ts:54-90 | allow iff some path to the scope root is within max depth and the hop bound and avoids every excluded node, for any parent table |
| `Scopes.VerdictExactly` | packages/treecrdt-auth/src/sqlite.ts:54-90 | over any table the verdict is unknown iff the walk uses up the hop bound or meets a node without a row before an excluded node, the scope root, a NULL parent, a reserved node or the depth bound; allow iff in scope; deny otherwise |
| `Scopes.DepthExactly` | packages/treecrdt-auth/src/sqlite.ts:64-74 | a finite depth bound counts hops inclusively, infinity and NaN bound nothing, minus infinity everything |
| `Scopes.DeniesExactly` | packages/treecrdt-auth/src/sqlite.ts:54-90 | with complete context within the hop bound the verdict is definite: deny iff the node is outside the scope |
| `Scopes.ScopesCompose` | packages/treecrdt-auth/src/internal/capability.ts:432-459 | a node inside a scope whose root is inside another without max depth and with no more exclusions is inside that other |
| `Scopes.ScopeShrinks` | packages/treecrdt-auth/src/internal/capability.ts:461-484 | same root, no fewer exclusions and a depth test that passes no further walk only shrink a scope |
| `Scopes.CapsAllowNode` | packages/treecrdt-auth/src/internal/scope.ts:144-169 | allow iff a capability allows before any throws; error iff one throws before any allows; deny iff every capability denies |
| `Scopes.CapAllowsExactly` | packages/treecrdt-auth/src/internal/scope.ts:115-142 | the verdict of one capability: an error iff it applies but its scope does not parse, allow iff it applies and the node is the root, the scope is the whole document or the evaluator allows it, unknown iff it applies and the evaluator is missing or does not know |
| `Scopes.ExpandExactly` | packages/treecrdt-auth/src/internal/scope.ts:32-45 | which actions a list grants besides those it names |
| `Scopes.GrantingAllowsOrThrows` | packages/treecrdt-auth/src/internal/scope.ts:144-169 | a list with a capability that allows a node never answers deny or unknown for it, and allows iff no earlier capability throws |
| `Scopes.WellScopedNeverThrows` | packages/treecrdt-auth/src/internal/scope.ts:115-142 | if every scope for the document parses, the check never throws |
| `Scopes.CapsAllowOp` | packages/treecrdt-auth/src/internal/scope.ts:171-201 | over the nodes to check (an insert's parent, both ends of a move, else the node): allow iff all are allowed, error iff one throws, deny iff one is denied by every capability |
| `Scopes.OpNeeds` | packages/treecrdt-auth/src/internal/scope.ts:47-82 | which actions on which nodes a capability must list for each kind of operation, exactly, when all scopes parse |
| `Delegation.AssertDelegatedGrantWithinProof` | packages/treecrdt-auth/src/internal/capability.ts:378-494 | the loops with their flags compute the within-proof relation and its first error, for all numbers in the claims |
| `Delegation.GrantWithinExactly` | packages/treecrdt-auth/src/internal/capability.ts:378-494 | a delegated grant is accepted iff its bounds are kept as far as the comparisons tell and each capability is covered by the first of the proof's that names the document, the grant action and all its actions, with the same root or one the evaluator allows, and all exclusions |
| `Delegation.ParseExactly` | packages/treecrdt-auth/src/internal/capability.ts:319-376 | claims give a grant iff they decode, address the document, are valid now, and carry a key with its id and a capability; the grant holds just what they say |
| `Delegation.VerifyExactly` | packages/treecrdt-auth/src/internal/capability.ts:218-317 | a token is verified iff there are issuers and its chain of proofs is at most nine tokens long, repeats no id, holds no revoked token, all claims give grants, each token is signed by the subject of the next and lies within it, and an issuer signed the last |
| `Delegation.VerifiedTokens` | packages/treecrdt-auth/src/internal/capability.ts:319-376 | every token of a verified chain addresses the document, is valid now, and carries a key with its id and a capability |
| `Delegation.IssuedTokenExactly` | packages/treecrdt-auth/src/internal/capability.ts:255-264 | an issuer's token that is not revoked is verified iff its claims give a grant |
| `Delegation.ScopeWithinAllows` | packages/treecrdt-auth/src/internal/capability.ts:432-484 | a scope accepted against its proof's scope allows no node the proof's does not, unless its depth is NaN against a depth that denies something |
| `Delegation.ScopeWithinExactly` | packages/treecrdt-auth/src/internal/capability.ts:432-484 | over all parent tables within the hop bound: acceptance of a scope means it allows no more iff it does not set NaN against a depth that bites, with the same root outside its exclusions |
| `Delegation.WindowExactly` | packages/treecrdt-auth/src/internal/capability.ts:389-401 | an accepted window lies inside the proof's at all times iff no NaN exp or nbf stands against a bound that some time violates |
| `Delegation.CoveredExactly` | packages/treecrdt-auth/src/internal/capability.ts:403-494 | over all such tables: whatever an accepted capability allows is allowed by the proof capability that decided about it iff it does not lift that one's depth |
| `Delegation.LinkExactly` | packages/treecrdt-auth/src/internal/capability.ts:378-494 | both together for a whole link: it is worth what it should be iff no NaN lifts a bound |
| `Delegation.LinkSound` | packages/treecrdt-auth/src/internal/capability.ts:378-494 | if no NaN lifts a bound, whatever a capability of a grant accepted within its proof allows, a capability of the proof allows; where the node and operation checks allow the grant they allow the proof or throw on it, never deny; and its window lies inside the proof's |
| `Delegation.ChainSound` | packages/treecrdt-auth/src/internal/capability.ts:218-317 | a verified chain is at most nine tokens long and ends in an issuer-signed token; if no NaN lifts a bound along it, the leaf's window lies inside that token's, every node and action list some capability of the leaf allows some capability of that token allows, and where the node and operation checks allow the leaf they allow that token iff they do not throw on it |
| `Delegation.WithoutNaN` | packages/treecrdt-auth/src/internal/capability.ts:319-376 | a chain whose tokens carry no NaN exp, nbf or max_depth lifts no bound |
| `Delegation.NaNEscapes` | packages/treecrdt-auth/src/internal/capability.ts:461-470 | the failing input: a verified two-token chain whose leaf, with NaN max_depth and exp, reads a node the proof denies and outlives the proof |
| `Delegation.ThrowingProof` | packages/treecrdt-auth/src/internal/scope.ts:126-142 | the other failing input: without any NaN, a verified chain whose leaf may read a node for which the check of its proof throws, because an earlier capability of the proof has no scope that parses |
| `Delegation.ChainLinks` | packages/treecrdt-auth/src/internal/capability.ts:218-317 | along a verified chain token ids are distinct, none is revoked, and each token is signed by an issuer or by the subject key of the next |

## Left out

- SQL text, prepared statements, row decoding, connections and locking: tables are maps, insert-if-absent stands for ON CONFLICT DO NOTHING, a failing statement is an arbitrary table content plus the dirty mark.
- Transactions: a rollback restores the state saved at the start; isolation between concurrent sessions is not modelled, documents are serialized by their row lock.
- Integer widths: lamports, counters, seq numbers and node ids are unbounded; u16 digit overflow in key allocation is modelled and shown impossible on well-formed keys.
- serde and JSON forms of version vectors: encoding is the identity; a malformed decoded vector enters as the right operand of a union.
- op_ref hashing: taken as injective within a document, so an id stands for its op_ref.
- FNV sampling: the sample of a depth is an arbitrary number.
- Placement strings (`first`, `last`, `after`) and their resolution to a sibling: callers pass the sibling.
- The seq column of the parent-op index and the buffering of its rows before they are flushed: the index is the set of its (parent, operation) pairs.
- PgDocuments.PgDocument.AppendOps: works on the engine's node store in the Postgres dialect, not on PgNodeStore itself; RunBoth and BlanksArePatches say that both hold the same rows, flags and lists.
- Engine.TreeCrdt.ApplyRemoteWithMaterialization: requires that an in-order operation does not break the forest, because the subtree recursion of the refresh need not end otherwise.
- Engine.TreeCrdt.LocalInsertAfter: requires a node other than ROOT and TRASH, for the same reason; Engine.TreeCrdt.LocalMoveAfter one other than TRASH.
- PgDocuments.PgDocument.LocalInsert: requires a node other than ROOT and TRASH, and PgDocuments.PgDocument.LocalMove one other than TRASH: such operations enter the log and break the forest of every in-memory replica that replays it.
- PgPipeline.IndexCoversRebuild: takes local edits by the rows they wrote; GapFreeIndex has the condition on the tree before each session.
- Engine.TreeCrdt.ApplyRemote: says nothing about cached flags, which this path does not refresh; likewise the out-of-order branch of ApplyRemoteWithDelta.
- COSE, CBOR, Ed25519 and BLAKE3: a token carries its id, the key that signed it and its decoded claims; claims for which a numeric field is no number, or a big integer out of range, count as undecodable. Rounding of numbers plays no role. Revocation is an arbitrary predicate of token id and depth, and it and the scope evaluator are fixed during one verification.
- Key ids and token ids stored in grants: not needed for what a grant allows.
- Sync protocol, transports, servers, RIBLT reconciliation, the SQLite extension and its wasm, worker and N-API wrappers, protobuf codecs, discovery, presence and the playground: input and output around the core.
