/**
 * The model behind the dialog that resolves conflicts in the properties of a
 * primitive: the coordinates of a node, the deleted state and the visible
 * state. The model keeps a snapshot of both sides of a conflict and one merge
 * decision per kind of property conflict.
 */
module PropertiesMerging {
  import opened Wrappers
  import opened Osm
  import opened Conflicts

  /** The commands buildResolveCommand assembles; each applies one decision to my primitive. */
  datatype ResolveCommand =
    | VisibleStateResolve(conflict: Conflict, decision: MergeDecision)
    | CoordinateResolve(conflict: Conflict, decision: MergeDecision)
    | DeletedStateResolve(conflict: Conflict, decision: MergeDecision)

  /** Position of a command kind in the order buildResolveCommand emits them. */
  function Rank(cmd: ResolveCommand): nat {
    match cmd
    case VisibleStateResolve(_, _) => 0
    case CoordinateResolve(_, _) => 1
    case DeletedStateResolve(_, _) => 2
  }

  /** The value a decision selects: mine, theirs, or null while undecided. */
  function Choose<T>(d: MergeDecision, mine: T, theirs: T): Option<T> {
    match d
    case KeepMine => Some(mine)
    case KeepTheir => Some(theirs)
    case Undecided => None
  }

  /**
   * The private getMergedDeletedState(decision): the deleted state a decision
   * selects, an undecided conflict counting as "not deleted".
   */
  function DeletedUnder(d: MergeDecision, mine: bool, theirs: bool): bool {
    match d
    case KeepMine => mine
    case KeepTheir => theirs
    case Undecided => false
  }

  /** The flag used for DELETE_PRIMITIVE_PROP is exactly "the merged deleted state is known to be true". */
  lemma DeletedUnderIsMergedTrue(d: MergeDecision, mine: bool, theirs: bool)
    ensures DeletedUnder(d, mine, theirs) <==> Choose(d, mine, theirs) == Some(true)
  {
  }

  /** The referrers of `k` in the dataset it belongs to; none when it belongs to no dataset. */
  function ReferrersIn(ds: Option<DataSet>, k: PrimId): set<PrimId> {
    if ds.Some? then Referrers(ds.value, k) else {}
  }

  /**
   * What populate records of both sides of a conflict. `my` and `their` are
   * `None` (null) until the model is populated; the coordinates are `None`
   * unless the primitives are nodes with coordinates; the referrers are empty
   * when the primitive belongs to no dataset.
   */
  datatype Sides = Sides(
    my: Option<Prim>, their: Option<Prim>,
    myCoords: Option<LatLon>, theirCoords: Option<LatLon>,
    myDeletedState: bool, theirDeletedState: bool,
    myVisibleState: bool, theirVisibleState: bool,
    myReferrers: set<PrimId>, theirReferrers: set<PrimId>)

  /** The field values of a model that has not been populated yet. */
  const Unpopulated := Sides(None, None, None, None, false, false, false, false, {}, {})

  /** The record populate makes of conflict `c` between `myPrim` (in `myDs`) and `theirPrim` (in `theirDs`). */
  function Capture(c: Conflict, myPrim: Prim, theirPrim: Prim, myDs: Option<DataSet>, theirDs: Option<DataSet>): Sides {
    Sides(Some(myPrim), Some(theirPrim),
          if c.my.kind == Node then myPrim.coor else None,
          if c.my.kind == Node then theirPrim.coor else None,
          c.isMyDeleted || myPrim.deleted, theirPrim.deleted,
          myPrim.visible, theirPrim.visible,
          ReferrersIn(myDs, c.my), ReferrersIn(theirDs, c.their))
  }

  class PropertiesMergeModel {
    /** The fields populate fills: both primitives and the states derived from them. */
    var sides: Sides
    var coordMergeDecision: MergeDecision
    var deletedMergeDecision: MergeDecision
    /** `None` stands for the null the constructor leaves in this field. */
    var visibleMergeDecision: Option<MergeDecision>
    /** The value last published for RESOLVED_COMPLETELY_PROP. */
    var resolvedCompletely: bool
    /** LatLon.equalsEpsilon: equality of coordinates up to rounding. */
    const equalsEpsilon: (LatLon, LatLon) -> bool

    /** Populated by a conflict: every query below reads both primitives and the visible decision. */
    predicate Populated()
      reads this
    {
      sides.my.Some? && sides.their.Some? && visibleMergeDecision.Some?
    }

    /**
     * Not populated yet, with every state false so that no conflict reads a
     * primitive, or populated.
     */
    predicate Valid()
      reads this
    {
      sides == Unpopulated || Populated()
    }

    constructor (equalsEpsilon: (LatLon, LatLon) -> bool)
      ensures this.equalsEpsilon == equalsEpsilon
      ensures sides == Unpopulated && !Populated() && Valid()
      ensures coordMergeDecision == Undecided && deletedMergeDecision == Undecided
      ensures visibleMergeDecision.None? && !resolvedCompletely
    {
      this.equalsEpsilon := equalsEpsilon;
      sides := Unpopulated;
      coordMergeDecision := Undecided;
      deletedMergeDecision := Undecided;
      visibleMergeDecision := None;
      resolvedCompletely := false;
    }

    /** hasCoordConflict: exactly one side has coordinates, or both do and they differ. */
    predicate HasCoordConflict()
      reads this
    {
      if sides.myCoords.None? && sides.theirCoords.Some? then true
      else if sides.myCoords.Some? && sides.theirCoords.None? then true
      else if sides.myCoords.None? && sides.theirCoords.None? then false
      else !equalsEpsilon(sides.myCoords.value, sides.theirCoords.value)
    }

    /** hasDeletedStateConflict */
    predicate HasDeletedStateConflict()
      reads this
    {
      sides.myDeletedState != sides.theirDeletedState
    }

    /** hasVisibleStateConflict: the visible states differ between two equal versions. */
    predicate HasVisibleStateConflict()
      reads this
      requires Valid()
    {
      sides.myVisibleState != sides.theirVisibleState && sides.my.value.version == sides.their.value.version
    }

    /** isResolvedCompletely, accumulating the verdict over the three kinds of conflict. */
    predicate IsResolvedCompletely()
      reads this
      requires Valid()
    {
      var ret := true;
      var ret := if HasCoordConflict() then ret && coordMergeDecision != Undecided else ret;
      var ret := if HasDeletedStateConflict() then ret && deletedMergeDecision != Undecided else ret;
      var ret := if HasVisibleStateConflict() then ret && visibleMergeDecision.value != Undecided else ret;
      ret
    }

    /** The number of property conflicts present. */
    function ConflictCount(): (n: nat)
      reads this
      requires Valid()
      ensures n <= 3
      ensures n == 0 <==> !HasCoordConflict() && !HasDeletedStateConflict() && !HasVisibleStateConflict()
    {
      (if HasVisibleStateConflict() then 1 else 0) +
      (if HasCoordConflict() then 1 else 0) +
      (if HasDeletedStateConflict() then 1 else 0)
    }

    /** getMergedCoords */
    function GetMergedCoords(): (r: Option<LatLon>)
      reads this
      ensures coordMergeDecision == Undecided ==> r.None?
      ensures coordMergeDecision == KeepMine ==> r == sides.myCoords
      ensures coordMergeDecision == KeepTheir ==> r == sides.theirCoords
    {
      match coordMergeDecision
      case KeepMine => sides.myCoords
      case KeepTheir => sides.theirCoords
      case Undecided => None
    }

    /** getMergedDeletedState (the public one, null while undecided) */
    function GetMergedDeletedState(): (r: Option<bool>)
      reads this
      ensures r.None? <==> deletedMergeDecision == Undecided
      ensures r.Some? ==> r.value == sides.myDeletedState || r.value == sides.theirDeletedState
    {
      Choose(deletedMergeDecision, sides.myDeletedState, sides.theirDeletedState)
    }

    /**
     * getMergedVisibleState: between different versions the newer primitive's
     * visible flag wins whatever the decision; between equal versions the
     * decision selects, null while undecided.
     */
    function GetMergedVisibleState(): (r: Option<bool>)
      reads this
      requires Populated()
      ensures sides.my.value.version > sides.their.value.version ==> r == Some(sides.my.value.visible)
      ensures sides.my.value.version < sides.their.value.version ==> r == Some(sides.their.value.visible)
      ensures sides.my.value.version == sides.their.value.version ==>
                (r.None? <==> visibleMergeDecision.value == Undecided) &&
                (r.Some? ==> r.value == sides.myVisibleState || r.value == sides.theirVisibleState)
    {
      if sides.my.value.version != sides.their.value.version then
        if sides.my.value.version > sides.their.value.version then Some(sides.my.value.visible)
        else Some(sides.their.value.visible)
      else
        Choose(visibleMergeDecision.value, sides.myVisibleState, sides.theirVisibleState)
    }

    /** buildResolveCommand: one command per conflict that exists and has been decided. */
    function BuildResolveCommand(c: Conflict): (cmds: seq<ResolveCommand>)
      reads this
      requires Valid()
    {
      var visible := if HasVisibleStateConflict() && visibleMergeDecision.value != Undecided
                     then [VisibleStateResolve(c, visibleMergeDecision.value)] else [];
      var coord := if HasCoordConflict() && coordMergeDecision != Undecided
                   then [CoordinateResolve(c, coordMergeDecision)] else [];
      var deleted := if HasDeletedStateConflict() && deletedMergeDecision != Undecided
                     then [DeletedStateResolve(c, deletedMergeDecision)] else [];
      visible + coord + deleted
    }

    /** fireCompletelyResolved: recompute the published verdict. */
    method FireCompletelyResolved()
      requires Valid()
      modifies this
      ensures Valid() && sides == old(sides)
      ensures coordMergeDecision == old(coordMergeDecision) && deletedMergeDecision == old(deletedMergeDecision)
      ensures visibleMergeDecision == old(visibleMergeDecision)
      ensures resolvedCompletely == IsResolvedCompletely()
    {
      resolvedCompletely := IsResolvedCompletely();
    }

    /**
     * populate: record both sides of conflict `c` and reset every decision,
     * so the model is resolved completely exactly when there is no conflict at
     * all. `myPrim` and `theirPrim` are the conflict's primitives; `myDs` and
     * `theirDs` the datasets they belong to, if any.
     */
    method Populate(c: Conflict, myPrim: Prim, theirPrim: Prim, myDs: Option<DataSet>, theirDs: Option<DataSet>)
      requires c.my.kind == c.their.kind
      modifies this
      ensures Populated() && sides.my == Some(myPrim) && sides.their == Some(theirPrim)
      ensures c.my.kind == Node ==> sides.myCoords == myPrim.coor && sides.theirCoords == theirPrim.coor
      ensures c.my.kind != Node ==> sides.myCoords.None? && sides.theirCoords.None?
      ensures sides.myDeletedState == (c.isMyDeleted || myPrim.deleted)
      ensures sides.theirDeletedState == theirPrim.deleted
      ensures sides.myVisibleState == myPrim.visible && sides.theirVisibleState == theirPrim.visible
      ensures sides.myReferrers == ReferrersIn(myDs, c.my) && sides.theirReferrers == ReferrersIn(theirDs, c.their)
      ensures coordMergeDecision == Undecided && deletedMergeDecision == Undecided
      ensures visibleMergeDecision == Some(Undecided)
      ensures resolvedCompletely <==> ConflictCount() == 0
    {
      sides := Capture(c, myPrim, theirPrim, myDs, theirDs);
      coordMergeDecision := Undecided;
      deletedMergeDecision := Undecided;
      visibleMergeDecision := Some(Undecided);
      FireCompletelyResolved();
    }

    /** decideCoordsConflict */
    method DecideCoordsConflict(d: MergeDecision)
      requires Valid()
      modifies this
      ensures Valid() && sides == old(sides)
      ensures coordMergeDecision == d
      ensures deletedMergeDecision == old(deletedMergeDecision) && visibleMergeDecision == old(visibleMergeDecision)
      ensures resolvedCompletely == IsResolvedCompletely()
    {
      coordMergeDecision := d;
      FireCompletelyResolved();
    }

    /**
     * decideDeletedStateConflict; `deleteFired` tells whether DELETE_PRIMITIVE_PROP
     * is fired, which happens exactly when the deleted state selected by the
     * decision changes, an undecided conflict counting as "not deleted".
     */
    method DecideDeletedStateConflict(d: MergeDecision) returns (deleteFired: bool)
      requires Valid()
      modifies this
      ensures Valid() && sides == old(sides)
      ensures deletedMergeDecision == d
      ensures coordMergeDecision == old(coordMergeDecision) && visibleMergeDecision == old(visibleMergeDecision)
      ensures resolvedCompletely == IsResolvedCompletely()
      ensures deleteFired <==> (old(GetMergedDeletedState()) == Some(true)) != (GetMergedDeletedState() == Some(true))
    {
      var oldMergedDeletedState := DeletedUnder(deletedMergeDecision, sides.myDeletedState, sides.theirDeletedState);
      var newMergedDeletedState := DeletedUnder(d, sides.myDeletedState, sides.theirDeletedState);
      deletedMergeDecision := d;
      FireCompletelyResolved();
      DeletedUnderIsMergedTrue(old(deletedMergeDecision), sides.myDeletedState, sides.theirDeletedState);
      DeletedUnderIsMergedTrue(d, sides.myDeletedState, sides.theirDeletedState);
      deleteFired := oldMergedDeletedState != newMergedDeletedState;
    }

    /** decideVisibleStateConflict */
    method DecideVisibleStateConflict(d: MergeDecision)
      requires Valid()
      modifies this
      ensures Valid() && sides == old(sides)
      ensures visibleMergeDecision == Some(d)
      ensures coordMergeDecision == old(coordMergeDecision) && deletedMergeDecision == old(deletedMergeDecision)
      ensures resolvedCompletely == IsResolvedCompletely()
    {
      visibleMergeDecision := Some(d);
      FireCompletelyResolved();
    }
  }

  /**
   * buildResolveCommand emits, in the order visible, coordinates, deleted,
   * exactly one command per conflict that is present and decided, each
   * carrying that conflict's decision.
   */
  lemma BuildResolveCommandSpec(m: PropertiesMergeModel, c: Conflict)
    requires m.Populated()
    ensures var cmds := m.BuildResolveCommand(c);
      |cmds| <= 3 &&
      (forall i :: 0 <= i < |cmds| ==> cmds[i].conflict == c && cmds[i].decision != Undecided) &&
      (forall i, j :: 0 <= i < j < |cmds| ==> Rank(cmds[i]) < Rank(cmds[j])) &&
      (VisibleStateResolve(c, m.visibleMergeDecision.value) in cmds <==>
         m.HasVisibleStateConflict() && m.visibleMergeDecision.value != Undecided) &&
      (CoordinateResolve(c, m.coordMergeDecision) in cmds <==>
         m.HasCoordConflict() && m.coordMergeDecision != Undecided) &&
      (DeletedStateResolve(c, m.deletedMergeDecision) in cmds <==>
         m.HasDeletedStateConflict() && m.deletedMergeDecision != Undecided) &&
      (forall i :: 0 <= i < |cmds| ==>
         (cmds[i].VisibleStateResolve? ==> cmds[i].decision == m.visibleMergeDecision.value) &&
         (cmds[i].CoordinateResolve? ==> cmds[i].decision == m.coordMergeDecision) &&
         (cmds[i].DeletedStateResolve? ==> cmds[i].decision == m.deletedMergeDecision))
  {
  }

  /** isResolvedCompletely holds exactly when every conflict that is present has been decided. */
  lemma ResolvedIffEveryConflictDecided(m: PropertiesMergeModel)
    requires m.Valid()
    ensures m.IsResolvedCompletely() <==>
              (m.HasCoordConflict() ==> m.coordMergeDecision != Undecided) &&
              (m.HasDeletedStateConflict() ==> m.deletedMergeDecision != Undecided) &&
              (m.HasVisibleStateConflict() ==> m.visibleMergeDecision.value != Undecided)
  {
  }

  /** A model is resolved completely exactly when buildResolveCommand yields one command per conflict. */
  lemma ResolvedIffOneCommandPerConflict(m: PropertiesMergeModel, c: Conflict)
    requires m.Valid()
    ensures m.IsResolvedCompletely() <==> |m.BuildResolveCommand(c)| == m.ConflictCount()
  {
  }

  /** Where two versions differ there is no visible conflict, and the newer version decides the merged state. */
  lemma NewerVersionDecidesVisibility(m: PropertiesMergeModel)
    requires m.Populated() && m.sides.my.value.version != m.sides.their.value.version
    ensures !m.HasVisibleStateConflict()
    ensures m.GetMergedVisibleState().Some?
    ensures m.GetMergedVisibleState().value ==
              (if m.sides.my.value.version > m.sides.their.value.version then m.sides.my.value.visible
               else m.sides.their.value.visible)
  {
  }

  /** Without a deleted-state conflict, both decisions select the same deleted state. */
  lemma NoDeletedConflictNoChoice(m: PropertiesMergeModel)
    requires !m.HasDeletedStateConflict()
    ensures Choose(KeepMine, m.sides.myDeletedState, m.sides.theirDeletedState) ==
            Choose(KeepTheir, m.sides.myDeletedState, m.sides.theirDeletedState)
    ensures DeletedUnder(KeepMine, m.sides.myDeletedState, m.sides.theirDeletedState) ==
            DeletedUnder(KeepTheir, m.sides.myDeletedState, m.sides.theirDeletedState)
  {
  }

  /** Without a coordinate conflict, both decisions select coordinates that agree up to rounding. */
  lemma NoCoordConflictNoChoice(m: PropertiesMergeModel)
    requires !m.HasCoordConflict()
    ensures m.sides.myCoords.None? <==> m.sides.theirCoords.None?
    ensures m.sides.myCoords.Some? ==> m.equalsEpsilon(m.sides.myCoords.value, m.sides.theirCoords.value)
  {
  }
}
