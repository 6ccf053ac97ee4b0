/**
 * The precedence ladder DataSetMerger.mergeById walks once a target
 * primitive with the same identity as the source primitive has been found.
 */
module MergeLadder {
  import opened Osm

  /** What mergeById does with a target primitive. */
  datatype Disposition =
    | KeepTarget            // the target is left as it is
    | AdoptSource           // target.mergeFrom(source); its children are fixed later
    | IntegrityProblem      // DataIntegrityProblemException
    | UndeleteWithConflict  // a my-deleted conflict is recorded and the target un-deleted
    | QueueDeletion         // the target is queued for the deletion pass
    | ClearModified         // the target's modified flag is cleared
    | RecordConflict        // a conflict (target, source) is recorded, the target is left as it is

  /** Both sides are complete and carry data that can be compared. */
  predicate BothComplete(t: Prim, s: Prim) {
    !t.incomplete && !s.incomplete
  }

  /**
   * The situation in which the modified flags decide: the target is not
   * newer, both are complete, and at equal versions the two agree on
   * visibility and the target is not the only deleted one.
   */
  predicate FlagsDecide(t: Prim, s: Prim) {
    t.version <= s.version && BothComplete(t, s) &&
    !(t.version == s.version && (t.visible != s.visible || (t.deleted && !s.deleted)))
  }

  /**
   * The ladder, branch by branch in source order. `semEqual` is
   * target.hasEqualSemanticAttributes(source); `referrerMissing` says that some
   * referrer of the source primitive is absent from the target dataset.
   */
  function MergeByIdDecision(t: Prim, s: Prim, semEqual: bool, referrerMissing: bool): (d: Disposition)
    // a newer target is always kept
    ensures t.version > s.version ==> d == KeepTarget
    // an incomplete source never changes a target
    ensures s.incomplete ==> d == KeepTarget
    // an incomplete target is completed by a complete source that is not older
    ensures t.incomplete && !s.incomplete && t.version <= s.version ==> d == AdoptSource
    // the fatal error arises exactly for complete primitives of equal version that disagree on visibility
    ensures d == IntegrityProblem <==>
              (t.version == s.version && BothComplete(t, s) && t.visible != s.visible)
    ensures d == UndeleteWithConflict <==>
              (t.version == s.version && BothComplete(t, s) && t.visible == s.visible &&
               t.deleted && !s.deleted && referrerMissing)
    // an unmodified target always takes the source: deleted by queueing, otherwise by adoption
    ensures FlagsDecide(t, s) && !t.modified ==> d == (if s.deleted then QueueDeletion else AdoptSource)
    ensures d == QueueDeletion <==> FlagsDecide(t, s) && !t.modified && s.deleted
    ensures d == ClearModified <==>
              (FlagsDecide(t, s) && t.modified && !s.modified && t.version == s.version && semEqual)
    // conflicts arise exactly for modified targets that differ in deleted state or semantics
    ensures d == RecordConflict <==>
              (FlagsDecide(t, s) && t.modified && !(t.version == s.version && !s.modified) &&
               (t.deleted != s.deleted || !semEqual))
    // a modified, complete target is never overwritten with different content
    ensures d == AdoptSource && t.modified && !t.incomplete ==> semEqual && t.deleted == s.deleted
  {
    if t.version > s.version then KeepTarget
    else if t.incomplete && !s.incomplete then AdoptSource
    else if !t.incomplete && s.incomplete then KeepTarget
    else if t.incomplete && s.incomplete then KeepTarget
    else if t.visible != s.visible && t.version == s.version then IntegrityProblem
    else if t.deleted && !s.deleted && t.version == s.version then
      (if referrerMissing then UndeleteWithConflict else KeepTarget)
    else if !t.modified && s.deleted then QueueDeletion
    else if !t.modified && s.modified then AdoptSource
    else if !t.modified && !s.modified && t.version == s.version then AdoptSource
    else if !t.modified && !s.modified && t.version < s.version then AdoptSource
    else if t.modified && !s.modified && t.version == s.version then
      (if semEqual then ClearModified else KeepTarget)
    else if s.deleted != t.deleted then RecordConflict
    else if !semEqual then RecordConflict
    else AdoptSource
  }
}
