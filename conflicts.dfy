/**
 * Conflicts between a primitive of my dataset and one of their dataset, the
 * collection they are gathered in, and the decisions a user takes on them.
 */
module Conflicts {
  import opened Osm

  /**
   * A conflict between my primitive and their primitive. `isMyDeleted` records
   * that my primitive was deleted when the conflict was created and has been
   * un-deleted since.
   */
  datatype Conflict = Conflict(my: PrimId, their: PrimId, isMyDeleted: bool)

  /** ConflictCollection.hasConflictForMy */
  predicate HasConflictForMy(cs: seq<Conflict>, k: PrimId) {
    exists i :: 0 <= i < |cs| && cs[i].my == k
  }

  /** ConflictCollection.hasConflictForTheir */
  predicate HasConflictForTheir(cs: seq<Conflict>, k: PrimId) {
    exists i :: 0 <= i < |cs| && cs[i].their == k
  }

  /** MergeDecisionType */
  datatype MergeDecision = KeepMine | KeepTheir | Undecided
}
