/**
 * The command that applies a decision on a visible-state conflict to my
 * primitive. Unlike the rest of the model, where primitives are records in a
 * dataset, the command updates my primitive object in place, so primitives
 * appear here as objects with the flags the command reads and writes.
 */
module VisibleStateCommand {
  import opened Wrappers
  import opened Conflicts

  /** The flags of an OSM primitive object that the command reads or writes. */
  class Primitive {
    var visible: bool
    var modified: bool
    var deleted: bool

    constructor (visible: bool, modified: bool, deleted: bool)
      ensures this.visible == visible && this.modified == modified && this.deleted == deleted
    {
      this.visible := visible;
      this.modified := modified;
      this.deleted := deleted;
    }
  }

  /** The exception executeCommand throws for an undecided conflict. */
  datatype CommandError = CannotResolveUndecided

  class VisibleStateConflictResolveCommand {
    /** My and their primitive of the conflict to resolve. */
    const my: Primitive
    const their: Primitive
    const decision: MergeDecision

    constructor (my: Primitive, their: Primitive, decision: MergeDecision)
      ensures this.my == my && this.their == their && this.decision == decision
    {
      this.my := my;
      this.their := their;
      this.decision := decision;
    }

    /**
     * executeCommand: keeping mine changes nothing; keeping theirs copies
     * their visible flag onto my primitive and, when that makes it invisible,
     * marks it modified unless it is deleted; an undecided conflict throws.
     */
    method ExecuteCommand() returns (r: Outcome<CommandError>)
      modifies my
      ensures decision == KeepMine ==> r == Pass && unchanged(my)
      ensures decision == KeepTheir ==> r == Pass
      ensures decision == KeepTheir ==> my.visible == old(their.visible) && my.deleted == old(my.deleted)
      ensures decision == KeepTheir && !old(their.visible) ==> my.modified == !old(my.deleted)
      ensures decision == KeepTheir && old(their.visible) ==> my.modified == old(my.modified)
      ensures decision == Undecided ==> r == Fail(CannotResolveUndecided) && unchanged(my)
    {
      if decision == KeepMine {
        // nothing to do
      } else if decision == KeepTheir {
        var visible := their.visible;
        my.visible := visible;
        if !visible {
          my.modified := !my.deleted;
        }
      } else {
        return Fail(CannotResolveUndecided);
      }
      return Pass;
    }

    /**
     * fillModifiedData: my primitive is reported as modified; nothing is
     * reported as deleted or added.
     */
    method FillModifiedData(modified: seq<Primitive>, deleted: seq<Primitive>, added: seq<Primitive>)
      returns (modified': seq<Primitive>, deleted': seq<Primitive>, added': seq<Primitive>)
      ensures |modified'| == |modified| + 1 && modified'[..|modified|] == modified && modified'[|modified|] == my
      ensures deleted' == deleted && added' == added
    {
      modified' := modified + [my];
      deleted' := deleted;
      added' := added;
    }
  }

  /** Applying a decided command never throws, and applying it twice has the effect of applying it once. */
  method ApplyTwice(cmd: VisibleStateConflictResolveCommand) returns (r1: Outcome<CommandError>, r2: Outcome<CommandError>)
    requires cmd.decision != Undecided
    modifies cmd.my
    ensures r1 == Pass && r2 == Pass
    ensures cmd.my.visible == (if cmd.decision == KeepMine then old(cmd.my.visible) else old(cmd.their.visible))
    ensures cmd.my.deleted == old(cmd.my.deleted)
    ensures cmd.my.modified ==
              if cmd.decision == KeepTheir && !old(cmd.their.visible) then !old(cmd.my.deleted) else old(cmd.my.modified)
  {
    r1 := cmd.ExecuteCommand();
    r2 := cmd.ExecuteCommand();
  }
}
