# JOSM data merging, conflict resolution and dialog models in Dafny

This project models a part of JOSM, the Java editor for OpenStreetMap data, and proves properties of that model:

- **Dataset merging** (`DataSetMerger`): merging their dataset onto mine. The model covers:
  - the precedence ladder of `mergeById`;
  - the matching of new primitives by semantic equality;
  - cloning;
  - the repair of way node lists and relation member lists, including the un-deletion of referenced targets with a conflict;
  - the deletion of queued targets, which repeats until nothing changes.
- **Conflict resolution**:
  - `PropertiesMergeModel`: coordinates, deleted state and visible state of a conflict pair, and the commands built from the decisions;
  - `VisibleStateConflictResolveCommand`.
- **The changeset list model** (`ChangesetListModel`): a list sorted by descending id, with a selection of indices that survives rebuilds and cache events.
- **The properties dialog** (`PropertiesDialog`):
  - the per-key value counts of the selection;
  - the relation memberships of the selection;
  - the compact position string of a `MemberInfo`.
- **Small pieces**:
  - `Filter` and its preference string;
  - `OffsetProvider` and its preference list;
  - `Utils.exists` and `Utils.min`.

Primitives and datasets are values (`Osm.Prim`, `Osm.DataSet`). A dataset maps primitive identities to records, and its order is the iteration order of `getNodes`/`getWays`/`getRelations`.

Objects whose fields the Java code updates in place are classes:

- `DataSetMerger`, `PropertiesMergeModel`, `ChangesetListModel`, `Filter`, `MemberInfo` and `PropertiesDialog`;
- the primitives changed by `VisibleStateConflictResolveCommand`.

Some operations come from code outside the modelled files:

- `OsmPrimitive.mergeFrom`;
- `OsmPrimitive.hasEqualSemanticAttributes`;
- `Changeset.mergeFrom`;
- `LatLon.equalsEpsilon`.

They are function-valued parameters of the classes that use them, constrained only where the model needs it: `Changeset.mergeFrom` keeps the id.

A thrown exception becomes a `Failure`/`Fail` result naming the cause.

## Model

| member | source | states |
|---|---|---|
| MergeLadder.MergeByIdDecision | src/org/openstreetmap/josm/data/osm/DataSetMerger.java:292-372 | a newer target and an incomplete source always keep the target; an incomplete target is completed by a complete source; the integrity error arises exactly for complete primitives of equal version that differ in visibility; un-deletion with a conflict exactly when an equal-version deleted target has a source referrer missing from the target; an unmodified target queues a deleted source and adopts any other; the modified flag is cleared exactly for a modified target whose equal-version source is unmodified and semantically equal; conflicts arise exactly for modified targets that differ in deleted state or semantics; a modified complete target is adopted over only by an equal source |
| DataSetMerging.DataSetMerger.constructor | src/org/openstreetmap/josm/data/osm/DataSetMerger.java:54-62 | an empty conflict collection, merged map, children set and deletion queue over the given datasets |
| DataSetMerging.DataSetMerger.FindNewMatch | src/org/openstreetmap/josm/data/osm/DataSetMerger.java:95-117 | the first target primitive in dataset order that is new, not deleted, of the same kind and semantically equal, or none when no target primitive qualifies |
| DataSetMerging.DataSetMerger.MergeById | src/org/openstreetmap/josm/data/osm/DataSetMerger.java:283-374 | returns false and changes nothing when the target lacks the identity; otherwise records the mapping and applies the ladder's disposition: the target record, the conflicts, the children set and the deletion queue change exactly as that disposition says, and the integrity case fails |
| DataSetMerging.DataSetMerger.ApplyDisposition | src/org/openstreetmap/josm/data/osm/DataSetMerger.java:292-372 | the effect of each ladder branch on the target record, the conflicts (my-deleted conflict for un-deletion, plain conflict otherwise), the children set (adoption) and the deletion queue (no duplicates) |
| DataSetMerging.DataSetMerger.MergePrimitive | src/org/openstreetmap/josm/data/osm/DataSetMerger.java:78-134 | a new deleted source primitive changes nothing; every other one gets a mapping; a new one matching a new target copies only visible, user, timestamp and modified; otherwise a clone under the source id (or a fresh new id) is appended to the target; a primitive with an id found in the target follows the ladder; existing mappings are kept, no target primitive is lost, and order, conflicts and deletion queue are only extended at their ends, by this primitive alone (a same-identity conflict, a queue entry) |
| DataSetMerging.DataSetMerger.MergeWithId | src/org/openstreetmap/josm/data/osm/DataSetMerger.java:79-133 | a source primitive with an id maps to itself; found in the target it follows the ladder, otherwise a `mergeFrom` clone of the source under its id is appended; any added conflict pairs the source with its own target and any added queue entry is the source itself |
| DataSetMerging.DataSetMerger.MergeNew | src/org/openstreetmap/josm/data/osm/DataSetMerger.java:88-133 | a new source primitive: ignored when deleted; otherwise mapped onto the first semantic match, whose technical attributes are copied, or cloned under the next new id when no target primitive matches; it records no conflict |
| DataSetMerging.DataSetMerger.AdoptTechnicalAttributes | src/org/openstreetmap/josm/data/osm/DataSetMerger.java:107-115 | the mapping is recorded, exactly visible, user, timestamp and modified of the match are replaced, and the source joins the children set |
| DataSetMerging.DataSetMerger.AddClone | src/org/openstreetmap/josm/data/osm/DataSetMerger.java:123-133 | the clone gets the source id (or the next new id, which then decreases), is not yet in the target, is `mergeFrom` of a fresh primitive, is appended to the order, and is mapped to |
| DataSetMerging.ResolveReferences | src/org/openstreetmap/josm/data/osm/DataSetMerger.java:237-247 | succeeds iff every referenced source primitive has a merge target, else fails naming the first referenced primitive without one; the result lists the targets position by position; a referenced target that was deleted and had no my-side conflict gets exactly one new my-deleted conflict and is un-deleted; every other primitive, including a deleted target that already had a my-side conflict, is unchanged; every new conflict is for such a target |
| DataSetMerging.RepairsNeeded | src/org/openstreetmap/josm/data/osm/DataSetMerger.java:241-244 | a conflict added by the repair is for a target that was deleted and had no my-side conflict, and no other new or earlier conflict is for the same target |
| DataSetMerging.RepairStep | src/org/openstreetmap/josm/data/osm/DataSetMerger.java:241-244 | one repair: appending the my-deleted conflict and un-deleting the target keeps "only repairs of needy targets, each once" and "un-deleted exactly the targets with a new conflict", and records the repair for that target |
| DataSetMerging.ResolvingStatus | src/org/openstreetmap/josm/data/osm/DataSetMerger.java:241 | during the loop a target is deleted without a my-side conflict exactly when it needed repair at the start and has not had it yet |
| DataSetMerging.UndeletedOnlyUndeletes | src/org/openstreetmap/josm/data/osm/DataSetMerger.java:241-244 | exact un-deletion of the repaired targets changes nothing but deleted flags |
| DataSetMerging.RelinkWay | src/org/openstreetmap/josm/data/osm/DataSetMerger.java:231-249 | succeeds iff the way and all its nodes have merge targets; then the target way's node list is the mapped list, and every other primitive changes exactly by the repair rule: a node target that was deleted without a my-side conflict gets one new my-deleted conflict and is un-deleted, nothing else changes, and every new conflict is such a repair |
| DataSetMerging.RelinkRelation | src/org/openstreetmap/josm/data/osm/DataSetMerger.java:258-275 | the same for a relation: roles kept, members mapped, and the members' targets repaired by the same exact rule |
| DataSetMerging.DataSetMerger.MergeNodeList | src/org/openstreetmap/josm/data/osm/DataSetMerger.java:231-249 | `RelinkWay` applied to the merger's own state and source way, with the same exact repair rule relative to the conflicts before the call |
| DataSetMerging.DataSetMerger.MergeRelationMembers | src/org/openstreetmap/josm/data/osm/DataSetMerger.java:258-275 | `RelinkRelation` applied to the merger's own state and source relation, with the same exact repair rule |
| DataSetMerging.RelinkOne | src/org/openstreetmap/josm/data/osm/DataSetMerger.java:231-275 | one way or relation of the source: on success it has a merge target, its target way carries the mapped node list (a relation: the mapped member list with roles), every child has a repaired merge target, and every child target that needed repair got its conflict, every conflict recorded being for one of its references; apart from that list the target changes only by un-deleting exactly the targets with a new conflict; a failure names a primitive without merge target |
| DataSetMerging.LastRelinked | src/org/openstreetmap/josm/data/osm/DataSetMerger.java:154-164 | the relinked source primitive of a kind whose list a target ends up with is one that maps onto that target, and there is none only when no relinked primitive of that kind maps onto it |
| DataSetMerging.LastRelinkedNext | src/org/openstreetmap/josm/data/osm/DataSetMerger.java:247-248 | a later relink of the same kind onto the same target replaces the list the target had; one of another kind or onto another target leaves it |
| DataSetMerging.ListsRebuiltNext | src/org/openstreetmap/josm/data/osm/DataSetMerger.java:247-248 | one more relink, as `setNodes`/`setMembers` does it, rebuilds the lists of its merge target only, so the lists stay those of the last relinked primitive per target |
| DataSetMerging.RelinkedStateDetermined | src/org/openstreetmap/josm/data/osm/DataSetMerger.java:153-164 | the relink contracts determine the state: two states that are both exact un-deletions up to links and have their lists rebuilt from the same relinked primitives are equal |
| DataSetMerging.RebuiltSkip | src/org/openstreetmap/josm/data/osm/DataSetMerger.java:155-156 | a way or relation passed over by the guard leaves every list as it is and records no conflict |
| DataSetMerging.RebuiltNext | src/org/openstreetmap/josm/data/osm/DataSetMerger.java:155-158 | a way or relation relinked because it had a pending merge and no their-side conflict when it came up is appended to the relinked ones, and only its target's list changes |
| DataSetMerging.VisitsSkip | src/org/openstreetmap/josm/data/osm/DataSetMerger.java:155-156 | passing over an entry because it has no pending merge or a their-side conflict at that moment records no conflict, and the earlier visits keep the conflicts they saw |
| DataSetMerging.VisitsNext | src/org/openstreetmap/josm/data/osm/DataSetMerger.java:155-163 | relinking an entry that had a pending merge and no their-side conflict at that moment records only conflicts for its own references, and the earlier visits keep the conflicts they saw |
| DataSetMerging.RecordedByVisit | src/org/openstreetmap/josm/data/osm/DataSetMerger.java:154-164 | every conflict recorded during the loop before a visit was recorded by one of the earlier visits |
| DataSetMerging.PassedOverWhy | src/org/openstreetmap/josm/data/osm/DataSetMerger.java:154-164 | an entry is passed over only when it has no pending merge, or a their-side conflict from before the loop, or an earlier visited entry references it; an entry that is relinked has a pending merge and no their-side conflict from before the loop |
| DataSetMerging.RelinkPending | src/org/openstreetmap/josm/data/osm/DataSetMerger.java:155-163 | the guarded call of one iteration: success extends the loop state with this entry as relinked, with its own references' conflicts recorded after the mark of its visit; failure names a primitive without merge target |
| DataSetMerging.RelinkStep | src/org/openstreetmap/josm/data/osm/DataSetMerger.java:155-163 | one iteration of either loop: the guard is evaluated on the conflicts as they are at this visit, then mergeNodeList or mergeRelationMembers; success keeps the loop state for the visited primitives plus this one, failure names a primitive without merge target |
| DataSetMerging.UndeletedUpToLinksTrans | src/org/openstreetmap/josm/data/osm/DataSetMerger.java:153-164 | exact un-deletion up to node and member lists composes over successive repairs |
| DataSetMerging.RepairsOnlyTrans | src/org/openstreetmap/josm/data/osm/DataSetMerger.java:153-164 | repairs made after earlier repairs are still repairs of targets that were deleted without a my-side conflict at the start, each at most once |
| DataSetMerging.RepairsRecordedLift | src/org/openstreetmap/josm/data/osm/DataSetMerger.java:241-244 | a target that needed repair at the start either had its repair before or still needs it later, so a later recorded repair counts from the start |
| DataSetMerging.RelinkEach | src/org/openstreetmap/josm/data/osm/DataSetMerger.java:154-164 | on success each listed way or relation is passed over (its index in `skipped`) exactly when it was not in the children set or had a their-side conflict among the conflicts present when it was visited (`marks` records their number at each visit; a pass-over records none, and each relink only conflicts for its own references); the others are `relinked`, in order; every target keeps its node list unless a relinked way maps onto it, and then carries the mapped node list of the last such way, and likewise for member lists and relations; each relinked one has its children's targets repaired, and every target that needed repair at the start of the loop got exactly one conflict; everything but the lists changes only by exact un-deletions |
| DataSetMerging.RelinkAll | src/org/openstreetmap/josm/data/osm/DataSetMerger.java:153-164 | the two loops as one pass over `ChildOrder` (ways, then relations): on success the same holds for every source way and relation, relative to the state before both loops |
| DataSetMerging.DataSetMerger.MergeChildLists | src/org/openstreetmap/josm/data/osm/DataSetMerger.java:153-164 | `RelinkAll` on the merger's state with its children set: on success the lists are rebuilt from the relinked ways and relations, each entry passed over exactly when the conflicts present at its visit say so, and fixed with exact repairs relative to the state before (`ChildListsMerged`) |
| DataSetMerging.DataSetMerger.DeleteMarkedObjects | src/org/openstreetmap/josm/data/osm/DataSetMerger.java:173-221 | fails naming a queued target missing from the source; otherwise it ends as `MarkedDeletion.DeleteQueued` says (each queued target deleted, refused or left by the rule at its visit), and the queue only shrinks |
| DataSetMerging.DataSetMerger.FixReferences | src/org/openstreetmap/josm/data/osm/DataSetMerger.java:153-167 | child lists first, then the deletion pass: in the intermediate state every node and member list is the mapped list of the last relinked source way or relation onto it (or unchanged), an entry being relinked exactly when it had a pending merge and no their-side conflict when it was visited, every child list is fixed with exact repairs, and the final state is the deletion run from that intermediate state; conflicts only grow, the mapping is unchanged, and an error names a missing merge target or a queued target missing from the source |
| DataSetMerging.DataSetMerger.MergeEach | src/org/openstreetmap/josm/data/osm/DataSetMerger.java:386-395 | every listed source primitive is handed to mergePrimitive in order and, unless skipped, gets a mapping; no target primitive is lost, the target order, conflicts and deletion queue are only extended at their ends, each added conflict is a same-identity conflict of a listed primitive and each added queue entry a listed primitive; an error is an integrity problem of a listed one |
| DataSetMerging.DataSetMerger.Merge | src/org/openstreetmap/josm/data/osm/DataSetMerger.java:382-405 | a null source changes nothing; otherwise nodes, then ways, then relations are merged in dataset order, every non-skipped source primitive gets a mapping, the state after these loops (`merged`, `mergedConflicts`, `queued`) extends the state before the call as `MergedFrom` says, and from there the lists are rebuilt, the child lists fixed with exact repairs, and the queued targets deleted as `FixReferences` says |
| DataSetMerging.OfKind | src/org/openstreetmap/josm/data/osm/DataSetMerger.java:387-395 | the identities of one kind, in dataset order |
| DataSetMerging.OfKindAppend | src/org/openstreetmap/josm/data/osm/DataSetMerger.java:387-395 | filtering by kind distributes over concatenation |
| DataSetMerging.ChildOrder | src/org/openstreetmap/josm/data/osm/DataSetMerger.java:154-164 | the second pass visits exactly the source ways and relations |
| DataSetMerging.MergeOrder | src/org/openstreetmap/josm/data/osm/DataSetMerger.java:387-395 | the first pass visits exactly the listed source primitives |
| DataSetMerging.MergedFromTrans | src/org/openstreetmap/josm/data/osm/DataSetMerger.java:387-395 | merging one list of source primitives and then another extends the state as merging their concatenation does |
| DataSetMerging.PickedBeyond | src/org/openstreetmap/josm/data/osm/DataSetMerger.java:154-164 | an index past the visited primitives does not change which of them were relinked |
| MarkedDeletion.HasReferrerOutside | src/org/openstreetmap/josm/data/osm/DataSetMerger.java:191-200 | true iff some referrer of the target is not in the deletion queue |
| MarkedDeletion.Rule | src/org/openstreetmap/josm/data/osm/DataSetMerger.java:184-201 | a queued target with no referrer is deleted; one with a referrer outside the queue as it stands is refused; any other is kept |
| MarkedDeletion.DeletionStep | src/org/openstreetmap/josm/data/osm/DataSetMerger.java:178-201 | deleted (marked deleted, then `mergeFrom` of the source) iff it has no referrer; refused iff a referrer is outside the queue; otherwise kept; only a deletion changes the dataset |
| MarkedDeletion.PassVerdict | src/org/openstreetmap/josm/data/osm/DataSetMerger.java:177-203 | after any later point of the pass, a visited target is in the deleted, refused or kept part exactly as the rule says in the state and queue of its visit |
| MarkedDeletion.DeletionPass | src/org/openstreetmap/josm/data/osm/DataSetMerger.java:177-203 | one pass over the queue splits it into kept, refused (one conflict each, in order) and deleted, each target by the rule at its visit (the dataset so far, the queue as it stands); only the deleted ones change; the flag is set iff something left the queue; a pass that removes nothing leaves everything alone, and only kept primitives then refer to kept ones |
| MarkedDeletion.StabilizeStep | src/org/openstreetmap/josm/data/osm/DataSetMerger.java:174-204 | one whole pass is one step of the do/while loop: it repeats on what was kept iff the pass removed something |
| MarkedDeletion.DeleteUntilStable | src/org/openstreetmap/josm/data/osm/DataSetMerger.java:175-204 | passes repeat until one removes nothing, and the result is the reference loop `Stabilize` of rule-driven passes; the queue is partitioned into left, refused and deleted; conflicts are one per refusal; the left ones are referred to only by left ones |
| MarkedDeletion.FinalizeLeft | src/org/openstreetmap/josm/data/osm/DataSetMerger.java:206-220 | every primitive still queued loses its node or member list, is marked deleted and merged from the source; nothing else changes |
| MarkedDeletion.DetachLeft | src/org/openstreetmap/josm/data/osm/DataSetMerger.java:209-215 | the first loop: the dataset after clearing the structure of every left primitive |
| MarkedDeletion.DeleteLeft | src/org/openstreetmap/josm/data/osm/DataSetMerger.java:216-219 | the second loop: the dataset after deleting and merging every left primitive |
| MarkedDeletion.ClearStructure | src/org/openstreetmap/josm/data/osm/DataSetMerger.java:210-214 | `setNodes(null)` empties a way's node list, `setMembers(null)` a relation's member list, and a node is unchanged |
| MarkedDeletion.DetachAllAt | src/org/openstreetmap/josm/data/osm/DataSetMerger.java:209-215 | after the first loop a left primitive has its structure cleared and every other primitive is unchanged |
| MarkedDeletion.DeleteAllAt | src/org/openstreetmap/josm/data/osm/DataSetMerger.java:216-219 | after the second loop a left primitive is deleted and merged and every other primitive is unchanged |
| MarkedDeletion.DeleteQueued | src/org/openstreetmap/josm/data/osm/DataSetMerger.java:173-221 | the whole of deleteMarkedObjects: the stable state is the reference loop of rule-driven passes, so every deleted or refused target was so by the rule at its visit; the queue is partitioned into left, refused and deleted; there is one conflict per refusal, in order; the deleted ones are finalized; in the stable dataset the left ones are referred to only by left ones, and they are then detached and finalized; the primitive set and order never change |
| Osm.NewPrimitive | src/org/openstreetmap/josm/data/osm/DataSetMerger.java:125-127 | a constructed primitive is incomplete exactly when built with an id, and is not deleted, not modified, visible and empty |
| Osm.Referrers | src/org/openstreetmap/josm/data/osm/DataSetMerger.java:184 | referrers are non-deleted ways and relations of the same dataset |
| PropertiesMerging.PropertiesMergeModel.constructor | src/org/openstreetmap/josm/gui/conflict/pair/properties/PropertiesMergeModel.java:77-82 | both decisions undecided, not resolved, nothing populated |
| PropertiesMerging.PropertiesMergeModel.Populate | src/org/openstreetmap/josm/gui/conflict/pair/properties/PropertiesMergeModel.java:152-178 | coordinates only for nodes; my deleted state includes the conflict's my-deleted flag; visible states and referrers (none without a dataset) captured; all three decisions undecided; resolved iff there is no conflict at all |
| PropertiesMerging.PropertiesMergeModel.GetMergedCoords | src/org/openstreetmap/josm/gui/conflict/pair/properties/PropertiesMergeModel.java:209-217 | null when undecided, else my or their coordinates as decided |
| PropertiesMerging.PropertiesMergeModel.GetMergedDeletedState | src/org/openstreetmap/josm/gui/conflict/pair/properties/PropertiesMergeModel.java:243-251 | null exactly when undecided, else one of the two deleted states |
| PropertiesMerging.PropertiesMergeModel.GetMergedVisibleState | src/org/openstreetmap/josm/gui/conflict/pair/properties/PropertiesMergeModel.java:291-305 | the higher version's visibility when versions differ; otherwise null exactly when undecided, else one of the two visible states |
| PropertiesMerging.PropertiesMergeModel.ConflictCount | src/org/openstreetmap/josm/gui/conflict/pair/properties/PropertiesMergeModel.java:361-388 | at most three conflicts, and none exactly when there is no coordinate, deleted-state or visible-state conflict |
| PropertiesMerging.PropertiesMergeModel.FireCompletelyResolved | src/org/openstreetmap/josm/gui/conflict/pair/properties/PropertiesMergeModel.java:71-75 | the resolved flag becomes isResolvedCompletely(), before populate as after it; the sides and decisions are unchanged |
| PropertiesMerging.PropertiesMergeModel.DecideCoordsConflict | src/org/openstreetmap/josm/gui/conflict/pair/properties/PropertiesMergeModel.java:224-229 | only the coordinate decision changes, and the resolved flag is recomputed; also before populate, when no conflict exists |
| PropertiesMerging.PropertiesMergeModel.DecideDeletedStateConflict | src/org/openstreetmap/josm/gui/conflict/pair/properties/PropertiesMergeModel.java:324-338 | only the deleted-state decision changes; the delete event fires iff "merged deleted state is true" flips; also before populate |
| PropertiesMerging.PropertiesMergeModel.DecideVisibleStateConflict | src/org/openstreetmap/josm/gui/conflict/pair/properties/PropertiesMergeModel.java:346-352 | only the visible-state decision changes, and the resolved flag is recomputed; also before populate |
| PropertiesMerging.DeletedUnderIsMergedTrue | src/org/openstreetmap/josm/gui/conflict/pair/properties/PropertiesMergeModel.java:307-316 | the private getMergedDeletedState(decision) is true iff the public merged deleted state under that decision is true |
| PropertiesMerging.BuildResolveCommandSpec | src/org/openstreetmap/josm/gui/conflict/pair/properties/PropertiesMergeModel.java:416-428 | at most three commands, in the order visible, coordinate, deleted; each is for the conflict and carries its decided decision; each kind is present iff its conflict exists and is decided |
| PropertiesMerging.ResolvedIffEveryConflictDecided | src/org/openstreetmap/josm/gui/conflict/pair/properties/PropertiesMergeModel.java:395-407 | resolved completely iff every existing conflict is decided |
| PropertiesMerging.ResolvedIffOneCommandPerConflict | src/org/openstreetmap/josm/gui/conflict/pair/properties/PropertiesMergeModel.java:395-428 | resolved completely iff buildResolveCommand yields one command per conflict |
| PropertiesMerging.NewerVersionDecidesVisibility | src/org/openstreetmap/josm/gui/conflict/pair/properties/PropertiesMergeModel.java:291-297 | with different versions there is no visible-state conflict and the merged visibility is the newer side's |
| PropertiesMerging.NoDeletedConflictNoChoice | src/org/openstreetmap/josm/gui/conflict/pair/properties/PropertiesMergeModel.java:375-377 | without a deleted-state conflict both decisions yield the same merged state |
| PropertiesMerging.NoCoordConflictNoChoice | src/org/openstreetmap/josm/gui/conflict/pair/properties/PropertiesMergeModel.java:361-366 | without a coordinate conflict both sides have coordinates or neither, and they are equal within epsilon |
| VisibleStateCommand.VisibleStateConflictResolveCommand.constructor | src/org/openstreetmap/josm/command/VisibleStateConflictResolveCommand.java:34-37 | the command holds the conflict's two primitives and the decision |
| VisibleStateCommand.VisibleStateConflictResolveCommand.ExecuteCommand | src/org/openstreetmap/josm/command/VisibleStateConflictResolveCommand.java:48-72 | keep-mine changes nothing; keep-their copies their visibility and, when that is invisible, sets modified to "not deleted"; deleted is never touched; undecided fails and changes nothing |
| VisibleStateCommand.VisibleStateConflictResolveCommand.FillModifiedData | src/org/openstreetmap/josm/command/VisibleStateConflictResolveCommand.java:74-78 | my primitive is appended to the modified list; the other lists are unchanged |
| VisibleStateCommand.ApplyTwice | src/org/openstreetmap/josm/command/VisibleStateConflictResolveCommand.java:54-62 | executing a decided command twice equals executing it once |
| ChangesetList.NewChangeset | src/org/openstreetmap/josm/gui/dialogs/changeset/ChangesetListModel.java:94 | a changeset known only by its id: incomplete, without details |
| ChangesetList.IndexOf | src/org/openstreetmap/josm/gui/dialogs/changeset/ChangesetListModel.java:57 | the first index holding the id, or -1 iff no entry has it |
| ChangesetList.IndexOfDistinct | src/org/openstreetmap/josm/gui/dialogs/changeset/ChangesetListModel.java:57 | with distinct ids, an entry is found exactly by its own id |
| ChangesetList.InsertById | src/org/openstreetmap/josm/gui/dialogs/changeset/ChangesetListModel.java:151-162 | insertion into a list sorted by descending id stays sorted and adds exactly the element |
| ChangesetList.SortById | src/org/openstreetmap/josm/gui/dialogs/changeset/ChangesetListModel.java:151-162 | the result is sorted by descending id and a permutation of the input |
| ChangesetList.PermutationKeepsDistinct | src/org/openstreetmap/josm/gui/dialogs/changeset/ChangesetListModel.java:79 | sorting keeps the ids distinct |
| ChangesetList.RefreshFromCache | src/org/openstreetmap/josm/gui/dialogs/changeset/ChangesetListModel.java:73-78 | each entry is merged from a different cached changeset of its id; the ids are kept position by position |
| ChangesetList.ChangesetsOfIds | src/org/openstreetmap/josm/gui/dialogs/changeset/ChangesetListModel.java:89-95 | the set built from ids: distinct ids, exactly the positive given ids, each a changeset known only by its id |
| ChangesetList.PrimsOfKind | src/org/openstreetmap/josm/gui/dialogs/changeset/ChangesetListModel.java:120-137 | exactly the dataset's primitives of one kind |
| ChangesetList.ChangesetListModel.constructor | src/org/openstreetmap/josm/gui/dialogs/changeset/ChangesetListModel.java:29-31 | an empty list with an empty selection |
| ChangesetList.ChangesetListModel.SelectedIds | src/org/openstreetmap/josm/gui/dialogs/changeset/ChangesetListModel.java:43-51 | exactly the ids at selected indices |
| ChangesetList.ChangesetListModel.GetSelectedChangesets | src/org/openstreetmap/josm/gui/dialogs/changeset/ChangesetListModel.java:33-41 | exactly the changesets at selected indices |
| ChangesetList.ChangesetListModel.GetSelectedChangesetIds | src/org/openstreetmap/josm/gui/dialogs/changeset/ChangesetListModel.java:43-51 | exactly the ids at selected indices |
| ChangesetList.ChangesetListModel.SetSelectedChangesets | src/org/openstreetmap/josm/gui/dialogs/changeset/ChangesetListModel.java:53-63 | null clears the selection; otherwise exactly the indices whose id is among the given changesets are selected; the list is unchanged |
| ChangesetList.ChangesetListModel.SetChangesets | src/org/openstreetmap/josm/gui/dialogs/changeset/ChangesetListModel.java:65-82 | null empties the list and keeps the selection; otherwise the list is a permutation of the refreshed input, and an index is selected iff its id was selected before |
| ChangesetList.ChangesetListModel.InitFromChangesetIds | src/org/openstreetmap/josm/gui/dialogs/changeset/ChangesetListModel.java:84-97 | null or empty ids empty the list and keep the selection; otherwise the list's ids are exactly the positive given ids, each entry is a changeset known only by its id refreshed from the cache, and an index is selected iff its id was selected before |
| ChangesetList.ChangesetListModel.InitFromPrimitives | src/org/openstreetmap/josm/gui/dialogs/changeset/ChangesetListModel.java:99-112 | the list's ids are exactly the positive changeset ids of the primitives, each entry refreshed from the cache, and the previously selected ids are selected again |
| ChangesetList.ChangesetListModel.InitFromDataSet | src/org/openstreetmap/josm/gui/dialogs/changeset/ChangesetListModel.java:114-139 | the list's ids are exactly the positive changeset ids of the dataset's nodes, ways and relations, each entry refreshed from the cache, and the previously selected ids are selected again |
| ChangesetList.EntriesRefreshedNew | src/org/openstreetmap/josm/gui/dialogs/changeset/ChangesetListModel.java:72-79 | a list kept from id-only changesets holds each id's changeset refreshed from the cache |
| ChangesetList.ChangesetListModel.ChangesetCacheUpdated | src/org/openstreetmap/josm/gui/dialogs/changeset/ChangesetListModel.java:167-190 | ids and length kept; each entry becomes `CacheEventEntry` of its old value: an id-only changeset when its id was removed, else the added and then the updated changesets of its id merged into it; the selected indices are unchanged |
| ChangesetList.ApplyCacheEvent | src/org/openstreetmap/josm/gui/dialogs/changeset/ChangesetListModel.java:168-187 | the three event loops keep ids, order and distinctness; each entry becomes `CacheEventEntry` of it; removed entries become id-only changesets and entries untouched by the event are unchanged |
| ChangesetList.CacheEventUnrelated | src/org/openstreetmap/josm/gui/dialogs/changeset/ChangesetListModel.java:168-187 | an event about other ids leaves an entry unchanged |
| ChangesetList.MergeEvents | src/org/openstreetmap/josm/gui/dialogs/changeset/ChangesetListModel.java:169-180 | the first entry of each id has the events of its id merged in, in order, each only when it differs from the entry (`MergedEvents`); every other entry is unchanged; ids stay in place |
| ChangesetList.MergedEventsSingle | src/org/openstreetmap/josm/gui/dialogs/changeset/ChangesetListModel.java:169-174 | an entry matched by exactly one event becomes `mergeFrom(entry, event)`, or stays when it equals the event |
| ChangesetList.MergedEventsUnrelated | src/org/openstreetmap/josm/gui/dialogs/changeset/ChangesetListModel.java:169-180 | events about other ids leave an entry as it is |
| ChangesetList.ReplaceRemoved | src/org/openstreetmap/josm/gui/dialogs/changeset/ChangesetListModel.java:181-187 | a removed entry becomes an id-only changeset; every other entry is unchanged |
| ChangesetList.SelectIndices | src/org/openstreetmap/josm/gui/dialogs/changeset/ChangesetListModel.java:53-63 | exactly the indices whose id is among the given changesets |
| ChangesetList.ReselectSameIds | src/org/openstreetmap/josm/gui/dialogs/changeset/ChangesetListModel.java:168-189 | when the ids are unchanged, reselecting the remembered changesets selects exactly the same indices |
| ChangesetList.IdsOfPermutation | src/org/openstreetmap/josm/gui/dialogs/changeset/ChangesetListModel.java:72-79 | the sorted, refreshed list holds exactly the input's ids |
| Filters.ModeOf | src/org/openstreetmap/josm/data/osm/Filter.java:31-42 | a field naming a mode selects that mode; any other text keeps the default |
| Filters.Filter.constructor | src/org/openstreetmap/josm/data/osm/Filter.java:17-19 | empty text, add mode, all switches off except enable |
| Filters.Filter.WithSearch | src/org/openstreetmap/josm/data/osm/Filter.java:20-23 | the given search settings, enabled, not hiding, not inverted |
| Filters.Filter.FromPrefFields | src/org/openstreetmap/josm/data/osm/Filter.java:30-47 | the settings read from the split fields |
| Filters.SettingsOfFields | src/org/openstreetmap/josm/data/osm/Filter.java:30-47 | text from field 1; the five switches parsed from fields 3, 4, 6, 7 and 8; allElements false |
| Filters.PrefFields | src/org/openstreetmap/josm/data/osm/Filter.java:50-56 | ten fields, version first and text second, with no `;` inside unless the text holds one |
| Filters.Filter.GetPrefString | src/org/openstreetmap/josm/data/osm/Filter.java:50-56 | the ten fields of `PrefFields` joined by `;`: version, text, mode, the two search switches, "legacy", the three filter switches and "false" |
| Filters.PrefStringFields | src/org/openstreetmap/josm/data/osm/Filter.java:50-56 | the preference string splits back into exactly those ten fields |
| Filters.NewFilterFromPrefText | src/org/openstreetmap/josm/data/osm/Filter.java:25-48 | a new filter with the parsed settings, or the guard's error, or the missing-field error |
| Filters.Parsed | src/org/openstreetmap/josm/data/osm/Filter.java:25-48 | as written: a split with ten fields, or with at least nine and version "1", is accepted with the fields' settings; the guard error arises exactly for a non-empty split of another length whose first field is not the version; everything else reads a missing field |
| Filters.PrefStringRoundTrip | src/org/openstreetmap/josm/data/osm/Filter.java:25-56 | a filter whose text has no `;` is restored from its preference string, except allElements |
| Filters.AsWrittenAcceptsOtherVersion | src/org/openstreetmap/josm/data/osm/Filter.java:28-29 | as written, any ten-field string passes the guard whatever its version |
| Filters.AsWrittenShortStringReadsMissingField | src/org/openstreetmap/josm/data/osm/Filter.java:28-30 | as written, "1;x" passes the guard and fails on a missing field |
| Filters.IntendedGuardAcceptsExactlyCurrentVersion | src/org/openstreetmap/josm/data/osm/Filter.java:28-29 | with `\|\|` the constructor accepts exactly ten-field version-1 strings, never reads a missing field, and keeps the round trip |
| Filters.ParsedIntended | src/org/openstreetmap/josm/data/osm/Filter.java:28-29 | with `||`: accepted exactly when there are ten fields and the version is "1", with the fields' settings; otherwise the guard error |
| OffsetProviders.Ordinal | src/org/openstreetmap/josm/data/imagery/OffsetProvider.java:16-18 | the ordinal indexes ProviderType.values() back to the type |
| OffsetProviders.OffsetProvider.GetInfoArray | src/org/openstreetmap/josm/data/imagery/OffsetProvider.java:34-43 | name, type ordinal and url, plus the cookies exactly when they are non-null and non-empty |
| OffsetProviders.CreateOffsetProvider | src/org/openstreetmap/josm/data/imagery/OffsetProvider.java:45-62 | fails iff the list has fewer than three elements; name from element 0, url and cookies both from element 2; null iff element 1 is not the ordinal of a type |
| OffsetProviders.InfoArrayRoundTripAsWritten | src/org/openstreetmap/josm/data/imagery/OffsetProvider.java:34-62 | storing and re-creating a provider gives back its type, name and url, with the url in place of the cookies |
| OffsetProviders.CookiesLostAsWritten | src/org/openstreetmap/josm/data/imagery/OffsetProvider.java:48-52 | cookies different from the url do not survive the round trip |
| OffsetProviders.InfoArrayRoundTripIntended | src/org/openstreetmap/josm/data/imagery/OffsetProvider.java:45-62 | reading the cookies from element 3, every provider survives the round trip, with empty cookies read back as null |
| Utils.Exists | src/org/openstreetmap/josm/tools/Utils.java:6-12 | true iff some element satisfies the predicate; the scan stops at the first one |
| Utils.Min3 | src/org/openstreetmap/josm/tools/Utils.java:17-28 | one of the three arguments and no larger than any |
| Text.ParseJavaInt | src/org/openstreetmap/josm/data/imagery/OffsetProvider.java:54 | Integer.valueOf yields only 32-bit values |
| Text.ParseJavaIntToString | src/org/openstreetmap/josm/data/imagery/OffsetProvider.java:37 | String.valueOf of an int parses back to that int |
| Text.JavaSplit | src/org/openstreetmap/josm/data/osm/Filter.java:27 | String.split: the whole string without a separator, else the pieces with trailing empty ones dropped |
| Text.JavaSplitJoin | src/org/openstreetmap/josm/data/osm/Filter.java:27 | joining at least two separator-free parts with a non-empty last one splits back to them |
| Text.BoolToString | src/org/openstreetmap/josm/data/osm/Filter.java:50-56 | Boolean.parseBoolean reads a printed boolean back |
| PropertiesDialogs.MemberInfo.constructor | src/org/openstreetmap/josm/gui/dialogs/properties/PropertiesDialog.java:491-494 | empty role and position lists, no cached position string |
| PropertiesDialogs.MemberInfo.Add | src/org/openstreetmap/josm/gui/dialogs/properties/PropertiesDialog.java:495-499 | appends the member and its position; the two lists stay the same length |
| PropertiesDialogs.MemberInfo.GetPositionString | src/org/openstreetmap/josm/gui/dialogs/properties/PropertiesDialog.java:500-533 | the first call sorts the positions and caches their rendering; every call returns the cache truncated to 20 characters and caches that |
| PropertiesDialogs.MemberInfo.GetPositionStringTwice | src/org/openstreetmap/josm/gui/dialogs/properties/PropertiesDialog.java:500-533 | two calls in a row return the same string |
| PropertiesDialogs.WritePositions | src/org/openstreetmap/josm/gui/dialogs/properties/PropertiesDialog.java:505-527 | the loop writes exactly the run rendering of the sorted positions (`RenderAsWritten`) |
| PropertiesDialogs.CloseRun | src/org/openstreetmap/josm/gui/dialogs/properties/PropertiesDialog.java:523-527 | the end of a run is appended as ",last" for two, "-last" for more, nothing for one |
| PositionStrings.SortAscending | src/org/openstreetmap/josm/gui/dialogs/properties/PropertiesDialog.java:504 | an ascending permutation of the positions |
| PositionStrings.Runs | src/org/openstreetmap/josm/gui/dialogs/properties/PropertiesDialog.java:506-522 | runs of consecutive positions from the first to the last position |
| PositionStrings.RunsMaximal | src/org/openstreetmap/josm/gui/dialogs/properties/PropertiesDialog.java:510 | no run continues the previous one |
| PositionStrings.ExpandRuns | src/org/openstreetmap/josm/gui/dialogs/properties/PropertiesDialog.java:506-522 | the runs cover exactly the positions, in order |
| PositionStrings.Truncate | src/org/openstreetmap/josm/gui/dialogs/properties/PropertiesDialog.java:529-531 | at most 20 characters; longer text is cut to 17 plus "..." |
| PositionStrings.TruncateIdempotent | src/org/openstreetmap/josm/gui/dialogs/properties/PropertiesDialog.java:529-531 | truncating the cached string again changes nothing |
| PositionStrings.TextStartsWithSmallest | src/org/openstreetmap/josm/gui/dialogs/properties/PropertiesDialog.java:504-505 | the text starts with the smallest position, also after truncation when that number fits |
| PositionStrings.AsWrittenGapLooksLikeRun | src/org/openstreetmap/josm/gui/dialogs/properties/PropertiesDialog.java:518 | positions n, n+2 and n, n+1, n+2 both render as "n-(n+2)" as written, and differently with a comma |
| PositionStrings.IntendedDecodes | src/org/openstreetmap/josm/gui/dialogs/properties/PropertiesDialog.java:505-527 | with "," after a gap, the text decodes back to the sorted positions |
| PositionStrings.IntendedInjective | src/org/openstreetmap/josm/gui/dialogs/properties/PropertiesDialog.java:505-527 | with "," after a gap, different position lists give different texts |
| PropertiesDialogs.CountValues | src/org/openstreetmap/josm/gui/dialogs/properties/PropertiesDialog.java:796-820 | each key counts the selected primitives that have it, and each value counts those that have that value for the key |
| PropertiesDialogs.CountTags | src/org/openstreetmap/josm/gui/dialogs/properties/PropertiesDialog.java:808-819 | one primitive's tags added to the counts of the ones before it give the counts of all |
| ValueCounts.CountsAreValueMap | src/org/openstreetmap/josm/gui/dialogs/properties/PropertiesDialog.java:811-818 | a counted key's map holds exactly the values that occur, with their counts |
| ValueCounts.CountsSum | src/org/openstreetmap/josm/gui/dialogs/properties/PropertiesDialog.java:821-825 | a key's value counts add up to the number of selected primitives with the key, at most the selection size |
| PropertiesDialogs.FillShortfall | src/org/openstreetmap/josm/gui/dialogs/properties/PropertiesDialog.java:821-830 | every key's map is replaced by the filled map; the keys are unchanged |
| ValueCounts.FilledTotal | src/org/openstreetmap/josm/gui/dialogs/properties/PropertiesDialog.java:821-828 | after filling, a key's counts total the selection size minus the overwritten count of the empty value |
| ValueCounts.AsWrittenDropsEmptyValues | src/org/openstreetmap/josm/gui/dialogs/properties/PropertiesDialog.java:826-827 | when some primitive has the key with an empty value and some lacks it, the filled counts fall short of the selection |
| ValueCounts.FilledIntendedTotal | src/org/openstreetmap/josm/gui/dialogs/properties/PropertiesDialog.java:821-828 | adding the shortfall to the empty value's count makes the counts total the selection size and keeps every other value's count |
| Memberships.MemberPositions | src/org/openstreetmap/josm/gui/dialogs/properties/PropertiesDialog.java:844-850 | increasing 1-based positions, each of a member referring to the primitive |
| Memberships.MemberPositionsComplete | src/org/openstreetmap/josm/gui/dialogs/properties/PropertiesDialog.java:844-850 | every member referring to the primitive has its position listed |
| Memberships.QualifyingOf | src/org/openstreetmap/josm/gui/dialogs/properties/PropertiesDialog.java:836-837 | exactly the referrers that are complete, non-deleted relations |
| Memberships.RelationsListed | src/org/openstreetmap/josm/gui/dialogs/properties/PropertiesDialog.java:834-853 | a relation is listed iff it qualifies for some selected primitive |
| Memberships.CollectedValid | src/org/openstreetmap/josm/gui/dialogs/properties/PropertiesDialog.java:844-850 | every collected position names a member of the relation that refers to a selected primitive |
| Memberships.CollectedComplete | src/org/openstreetmap/josm/gui/dialogs/properties/PropertiesDialog.java:844-850 | every member of a qualifying relation that refers to a selected primitive is collected |
| Memberships.NotListedNothingCollected | src/org/openstreetmap/josm/gui/dialogs/properties/PropertiesDialog.java:839-843 | an unlisted relation has no positions |
| Memberships.ListedHasPositions | src/org/openstreetmap/josm/gui/dialogs/properties/PropertiesDialog.java:839-850 | every listed relation has at least one position |
| Memberships.CollectedMap | src/org/openstreetmap/josm/gui/dialogs/properties/PropertiesDialog.java:834-853 | the keys are exactly the listed relations |
| Memberships.StepsAt | src/org/openstreetmap/josm/gui/dialogs/properties/PropertiesDialog.java:836-852 | visiting distinct referrers adds each qualifying one with its member positions after those it already had |
| Memberships.StepsCollect | src/org/openstreetmap/josm/gui/dialogs/properties/PropertiesDialog.java:835-853 | visiting all referrers of one more primitive gives the collection for the longer selection, whatever their order |
| PropertiesDialogs.AddMemberships | src/org/openstreetmap/josm/gui/dialogs/properties/PropertiesDialog.java:844-850 | appends exactly the positions of the members referring to the primitive, with those members as roles |
| PropertiesDialogs.RecordReferrer | src/org/openstreetmap/josm/gui/dialogs/properties/PropertiesDialog.java:837-851 | one referrer: the roles map matches the collection after visiting it; existing entries are kept, new ones are fresh |
| PropertiesDialogs.RecordReferrers | src/org/openstreetmap/josm/gui/dialogs/properties/PropertiesDialog.java:836-852 | all referrers of one primitive: the roles map matches the collection for the longer selection |
| PropertiesDialogs.CollectMemberships | src/org/openstreetmap/josm/gui/dialogs/properties/PropertiesDialog.java:834-853 | the roles map holds exactly the listed relations, each with a fresh MemberInfo whose positions and roles are those collected |
| PropertiesDialogs.RecordedReady | src/org/openstreetmap/josm/gui/dialogs/properties/PropertiesDialog.java:500-505 | every collected MemberInfo has a position, so getPositionString can read the first one |
| PropertiesDialogs.PropertiesDialog.constructor | src/org/openstreetmap/josm/gui/dialogs/properties/PropertiesDialog.java:158 | an empty value-count map |
| PropertiesDialogs.PropertiesDialog.SelectionChanged | src/org/openstreetmap/josm/gui/dialogs/properties/PropertiesDialog.java:771-853 | the value counts hold exactly the keys that occur in the selection, each with its value counts filled up to the selection size; the memberships are those collected for the selection |

## Left out

- Swing, observers and property-change listeners are not modelled: table models, selection models, the cell editor, the sorting of the membership rows (`PropertiesDialog.java:855-868`) and `fireContentsChanged`. Only the conditions under which events fire are modelled.
- The `isVisible()` and `propertyTable == null` early returns of `selectionChanged` are not modelled: they concern the widget's life cycle.
- The node, way and closed-way counters of `selectionChanged` are left out. Closedness depends on way geometry, and the counters only feed the preset panel.
- The local `keyCount` map of `selectionChanged` is computed but never read by the source; the model computes it the same way and ties it to the key occurrences.
- `beginUpdate`/`endUpdate`, `rememberConflict` and the undo bookkeeping of `Command` are not modelled.
- The `ChangesetCache` singleton is passed in as a map from id to changeset.
- Changesets are values: where the source asks whether the cached changeset is a different object (`cache.get(id) != cs`) the model asks whether it is a different value, and where `Changeset.mergeFrom` updates the listed object in place, shared with the cache and with other holders, the model puts the merged value into the list. A cached copy that is equal but not the same object is merged by the source and left alone by the model. With `mergeFrom` an opaque parameter, the model does not show whether that merge changes anything.
- `OsmPrimitive.mergeFrom`, `hasEqualSemanticAttributes`, `Changeset.mergeFrom` and `LatLon.equalsEpsilon` are opaque function parameters. Their bodies are not part of this model.
- `ConflictCollection` is not part of this model; its `add` is modelled as appending to a list.
- HashSet and HashMap iteration order is a list order given by the caller, or an arbitrary choice. Results that do not depend on the order are stated without it.
- `getReferrers()` is modelled as the set of non-deleted ways and relations of the same dataset that refer to the primitive, since deleting a way or relation detaches it in JOSM. The back-reference bookkeeping itself is not modelled.
- `Collections.sort` on the position list is modelled by its result, an ascending permutation (`SortAscending`), not by a sorting algorithm.
- Java `int` overflow of counters and positions is not modelled; integers are unbounded. `Integer.valueOf` is modelled for ASCII decimal digits with an optional sign, within the 32-bit range.
- `Boolean.parseBoolean` uses ASCII case folding only.
- `DataSetMerger.fixIncomplete` only re-checks a merge target that `mergeNodeList` has already required, so it adds no step.
- Floating-point coordinates are integer pairs; only their equality within epsilon (a parameter) matters.
- The first id handed to a new clone is a parameter of the merger, which stands in for the global new-id counter.
- `DataSetMerger.getMergeTarget`, `getTargetDataSet` and `getConflicts` are field reads of the merger class.
- Some Java loops are split into helper methods with their own contracts:
  - `CloseRun` for the run-closing code that the source repeats inside and after its loop;
  - `DetachLeft` and `DeleteLeft` for the two loops at the end of `deleteMarkedObjects`;
  - `CountTags` for the inner loop over one primitive's tags;
  - `RecordReferrers` and `RecordReferrer` for the membership loops.
- `OffsetProvider.isLayerSupported` and `getOffset` are abstract in the source and are not modelled. The `OffsetProvider` fields are never updated in the modelled code, so it is a value.
- DataSetMerging.DataSetMerger.DeleteMarkedObjects: on a failure Java throws partway through a pass, while the model returns the state at that point, so the state after the exception is bounded only: conflicts only grow and the queue only shrinks.
- DataSetMerging.ResolveReferences: a repair conflict records some source reference to the target; that it is the first such reference in the child list is not stated.
- PropertiesDialogs.RecordReferrer updates the roles map only when it creates a new `MemberInfo`. The source's `roles.put(r, mi)` for an entry that is already there puts back the same object and leaves the map as it was.

## Findings

| source | as written | input that shows it | evidently intended | confidence | as-written member | corrected member |
|---|---|---|---|---|---|---|
| src/org/openstreetmap/josm/data/osm/Filter.java:28 | the string is rejected only when it has a field count other than ten AND a first field other than "1" | "2;x;add;false;false;legacy;true;false;false;false" is accepted; "1;x" gets past the guard and then reads a missing field | reject unless there are ten fields and the version is "1" (`\|\|`) | high, not executed | Filters.AsWrittenAcceptsOtherVersion | Filters.IntendedGuardAcceptsExactlyCurrentVersion |
| src/org/openstreetmap/josm/data/imagery/OffsetProvider.java:48-52 | the cookies are read from element 2 (the url) when the list has at least 3 elements | a provider with url "u" and cookies "c" is stored as [name, "0", "u", "c"] and comes back with cookies "u" | read element 3 when there are at least 4 elements | high, not executed | OffsetProviders.CookiesLostAsWritten | OffsetProviders.InfoArrayRoundTripIntended |
| src/org/openstreetmap/josm/gui/dialogs/properties/PropertiesDialog.java:518 | a position after a gap is preceded by "-" | positions [1, 3] and [1, 2, 3] both render as "1-3" | "," after a gap, so the text decodes back to the positions | medium, not executed | PositionStrings.AsWrittenGapLooksLikeRun | PositionStrings.IntendedDecodes |
| src/org/openstreetmap/josm/gui/dialogs/properties/PropertiesDialog.java:826-827 | the shortfall is put under "" and overwrites the count of primitives whose value is "" | two primitives, one with `k=""` and one without `k`: the map for `k` becomes {"": 1}, total 1 of 2 | add the shortfall to the existing "" count | medium, not executed | ValueCounts.AsWrittenDropsEmptyValues | ValueCounts.FilledIntendedTotal |

In each row the modelled operation keeps the behaviour as written, as the source does. The corrected definitions sit beside them with the intended property proved:

- `ParsedIntended`;
- `CreateOffsetProviderIntended`;
- `RenderIntended`;
- `FilledIntended`.
