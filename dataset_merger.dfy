/**
 * DataSetMerger: merges a source dataset onto a target dataset in three
 * passes — per-primitive disposition (nodes, then ways, then relations),
 * repair of way node lists and relation member lists through the
 * source-to-target identity map, and the fixed-point deletion of the
 * primitives queued for deletion.
 */
module DataSetMerging {
  import opened Wrappers
  import opened Osm
  import opened Conflicts
  import opened MergeLadder
  import opened MarkedDeletion

  /** The exceptions that abort a merge. */
  datatype MergeError =
    | DataIntegrityProblem(id: PrimId)  // DataIntegrityProblemException: same version, different visibility
    | MissingMergeTarget(id: PrimId)    // IllegalStateException: a reference without a merge target
    | MissingInSource(id: PrimId)       // RuntimeException: a queued primitive absent from the source

  /** The identities of kind `kind`, in listing order (DataSet.getNodes()/getWays()/getRelations()). */
  function OfKind(order: seq<PrimId>, kind: Kind): (r: seq<PrimId>)
    ensures |r| <= |order|
    ensures forall k :: k in r <==> k in order && k.kind == kind
  {
    if order == [] then []
    else (if order[0].kind == kind then [order[0]] else []) + OfKind(order[1..], kind)
  }

  /** Filtering by kind distributes over concatenation. */
  lemma {:induction false} OfKindAppend(a: seq<PrimId>, b: seq<PrimId>, kind: Kind)
    ensures OfKind(a + b, kind) == OfKind(a, kind) + OfKind(b, kind)
  {
    if a == [] {
      assert a + b == b;
    } else {
      assert (a + b)[1..] == a[1..] + b;
      OfKindAppend(a[1..], b, kind);
    }
  }

  /** `a` is `b`, or `b` un-deleted where a my-side conflict for `k` records that. */
  predicate SameOrUndeleted(b: Prim, a: Prim, cs: seq<Conflict>, k: PrimId) {
    a == b || (b.deleted && a == b.(deleted := false) && HasConflictForMy(cs, k))
  }

  /** `after` differs from `before` at most by un-deleting primitives that have a my-side conflict. */
  predicate OnlyUndeletes(before: map<PrimId, Prim>, after: map<PrimId, Prim>, cs: seq<Conflict>) {
    before.Keys == after.Keys &&
    forall k :: k in before ==> SameOrUndeleted(before[k], after[k], cs, k)
  }

  /** A conflict for `k` stays recorded when further conflicts are appended. */
  lemma ConflictForMyKept(cs1: seq<Conflict>, cs2: seq<Conflict>, k: PrimId)
    requires |cs1| <= |cs2| && cs2[..|cs1|] == cs1
    requires HasConflictForMy(cs1, k)
    ensures HasConflictForMy(cs2, k)
  {
    var c :| 0 <= c < |cs1| && cs1[c].my == k;
    assert cs2[c] == cs1[c];
  }

  /** Un-deleting one more primitive while recording its conflict keeps `OnlyUndeletes` from `base`. */
  lemma UndeleteStep(base: map<PrimId, Prim>, prims: map<PrimId, Prim>, cs: seq<Conflict>, t: PrimId, ref: PrimId)
    requires OnlyUndeletes(base, prims, cs) && t in prims && prims[t].deleted
    ensures OnlyUndeletes(base, prims[t := prims[t].(deleted := false)], cs + [Conflict(t, ref, true)])
  {
    var cs' := cs + [Conflict(t, ref, true)];
    var after := prims[t := prims[t].(deleted := false)];
    assert cs'[..|cs|] == cs;
    assert cs'[|cs|].my == t;
    forall k | k in base
      ensures SameOrUndeleted(base[k], after[k], cs', k)
    {
      if k == t {
        assert HasConflictForMy(cs', t);
      } else if base[k] != after[k] {
        assert SameOrUndeleted(base[k], prims[k], cs, k);
        ConflictForMyKept(cs, cs', k);
      }
    }
  }

  /** `k` is a primitive that is not deleted, or whose deletion is under a my-side conflict. */
  predicate Repaired(prims: map<PrimId, Prim>, cs: seq<Conflict>, k: PrimId) {
    k in prims && (prims[k].deleted ==> HasConflictForMy(cs, k))
  }

  /** Un-deleting `t` with a new conflict keeps every repaired primitive repaired. */
  lemma RepairedKept(prims: map<PrimId, Prim>, cs: seq<Conflict>, t: PrimId, ref: PrimId, k: PrimId)
    requires Repaired(prims, cs, k) && t in prims
    ensures Repaired(prims[t := prims[t].(deleted := false)], cs + [Conflict(t, ref, true)], k)
  {
    if k != t && prims[k].deleted {
      ConflictForMyKept(cs, cs + [Conflict(t, ref, true)], k);
    }
  }

  /** A conflict created by reference repair: a referenced target that was deleted and is un-deleted. */
  predicate RepairConflict(c: Conflict, refs: seq<PrimId>, mergedMap: map<PrimId, PrimId>) {
    c.isMyDeleted && c.their in refs && c.their in mergedMap && c.my == mergedMap[c.their]
  }

  /**
   * `t` is deleted in `prims0` and has no my-side conflict in `cs0`: the
   * first reference to it un-deletes it under a new conflict.
   */
  predicate NeedsRepair(prims0: map<PrimId, Prim>, cs0: seq<Conflict>, t: PrimId) {
    t in prims0 && prims0[t].deleted && !HasConflictForMy(cs0, t)
  }

  /** Some conflict from index `n` of `cs` on is for my primitive `k`. */
  predicate NewConflictFor(cs: seq<Conflict>, n: nat, k: PrimId) {
    exists j :: n <= j < |cs| && cs[j].my == k
  }

  /** `after` is `before` with exactly the primitives that have a conflict from index `n` on un-deleted. */
  predicate UndeletedByConflicts(before: map<PrimId, Prim>, after: map<PrimId, Prim>, cs: seq<Conflict>, n: nat) {
    before.Keys == after.Keys &&
    forall k :: k in before ==>
      after[k] == if NewConflictFor(cs, n, k) then before[k].(deleted := false) else before[k]
  }

  /**
   * `cs` extends `cs0`, and every conflict added is an un-deletion
   * (isMyDeleted) of a primitive deleted in `prims0` that has no other
   * my-side conflict in `cs`, before it or after it.
   */
  ghost predicate RepairsOnly(prims0: map<PrimId, Prim>, cs0: seq<Conflict>, cs: seq<Conflict>) {
    && |cs0| <= |cs| && cs[..|cs0|] == cs0
    && (forall j :: |cs0| <= j < |cs| ==> cs[j].isMyDeleted && cs[j].my in prims0 && prims0[cs[j].my].deleted)
    && (forall i, j :: 0 <= i < j < |cs| && |cs0| <= j ==> cs[i].my != cs[j].my)
  }

  /** Every conflict added under `RepairsOnly` is for a primitive that needed repair, and is its only new one. */
  lemma RepairsNeeded(prims0: map<PrimId, Prim>, cs0: seq<Conflict>, cs: seq<Conflict>, j: int)
    requires RepairsOnly(prims0, cs0, cs) && |cs0| <= j < |cs|
    ensures NeedsRepair(prims0, cs0, cs[j].my)
    ensures forall i :: |cs0| <= i < |cs| && i != j ==> cs[i].my != cs[j].my
  {
  }

  /** A conflict from index `n` on is a my-side conflict. */
  lemma NewConflictIsConflict(cs: seq<Conflict>, n: nat, k: PrimId)
    requires NewConflictFor(cs, n, k)
    ensures HasConflictForMy(cs, k)
  {
  }

  /** Exact un-deletion under conflicts is one way of only un-deleting under conflicts. */
  lemma UndeletedOnlyUndeletes(before: map<PrimId, Prim>, after: map<PrimId, Prim>, cs: seq<Conflict>, n: nat)
    requires UndeletedByConflicts(before, after, cs, n)
    ensures OnlyUndeletes(before, after, cs)
  {
    forall k | k in before
      ensures SameOrUndeleted(before[k], after[k], cs, k)
    {
      if NewConflictFor(cs, n, k) {
        NewConflictIsConflict(cs, n, k);
      }
    }
  }

  /** Every reference in `refs` whose target needed repair in `prims0`/`cs0` got a conflict after `cs0`. */
  predicate RepairsRecorded(prims0: map<PrimId, Prim>, cs0: seq<Conflict>, cs: seq<Conflict>,
                            mergedMap: map<PrimId, PrimId>, refs: seq<PrimId>) {
    forall ref :: ref in refs && ref in mergedMap && NeedsRepair(prims0, cs0, mergedMap[ref]) ==>
      NewConflictFor(cs, |cs0|, mergedMap[ref])
  }

  /**
   * The state of the loop shared by mergeNodeList and mergeRelationMembers
   * after the first `i` references: `out` holds their merge targets, all of
   * them present and repaired; each added conflict is the one un-deletion of
   * a target that needed repair, recorded against a reference to it.
   */
  ghost predicate Resolving(prims0: map<PrimId, Prim>, cs0: seq<Conflict>, mergedMap: map<PrimId, PrimId>,
                            refs: seq<PrimId>, i: int, prims: map<PrimId, Prim>, cs: seq<Conflict>, out: seq<PrimId>)
  {
    && 0 <= i <= |refs| && |out| == i
    && RepairsOnly(prims0, cs0, cs)
    && UndeletedByConflicts(prims0, prims, cs, |cs0|)
    && (forall j :: 0 <= j < i ==> refs[j] in mergedMap && out[j] == mergedMap[refs[j]])
    && (forall j :: 0 <= j < i ==> Repaired(prims, cs, out[j]))
    && (forall j :: 0 <= j < i && NeedsRepair(prims0, cs0, out[j]) ==> NewConflictFor(cs, |cs0|, out[j]))
    && (forall j :: |cs0| <= j < |cs| ==> RepairConflict(cs[j], refs, mergedMap))
  }

  /** Within the loop, a target is deleted without a my-side conflict exactly when it needs repair and has not had it. */
  lemma ResolvingStatus(prims0: map<PrimId, Prim>, cs0: seq<Conflict>, mergedMap: map<PrimId, PrimId>,
                        refs: seq<PrimId>, i: int, prims: map<PrimId, Prim>, cs: seq<Conflict>, out: seq<PrimId>,
                        t: PrimId)
    requires Resolving(prims0, cs0, mergedMap, refs, i, prims, cs, out) && t in prims0
    ensures prims[t].deleted && !HasConflictForMy(cs, t) <==>
              NeedsRepair(prims0, cs0, t) && !NewConflictFor(cs, |cs0|, t)
  {
    if NewConflictFor(cs, |cs0|, t) {
      NewConflictIsConflict(cs, |cs0|, t);
    } else if HasConflictForMy(cs, t) {
      var j :| 0 <= j < |cs| && cs[j].my == t;
      assert cs0[j] == cs[j];
    }
  }

  /** A reference whose target needs no repair. */
  lemma ResolvingKept(prims0: map<PrimId, Prim>, cs0: seq<Conflict>, mergedMap: map<PrimId, PrimId>,
                      refs: seq<PrimId>, i: int, prims: map<PrimId, Prim>, cs: seq<Conflict>, out: seq<PrimId>)
    requires Resolving(prims0, cs0, mergedMap, refs, i, prims, cs, out) && i < |refs| && refs[i] in mergedMap
    requires mergedMap[refs[i]] in prims0
    requires !(prims[mergedMap[refs[i]]].deleted && !HasConflictForMy(cs, mergedMap[refs[i]]))
    ensures Resolving(prims0, cs0, mergedMap, refs, i + 1, prims, cs, out + [mergedMap[refs[i]]])
  {
    var t := mergedMap[refs[i]];
    var out' := out + [t];
    ResolvingStatus(prims0, cs0, mergedMap, refs, i, prims, cs, out, t);
    assert forall j :: 0 <= j < i ==> out'[j] == out[j];
  }

  /** A reference whose target is deleted without a conflict: the target is un-deleted with a new conflict. */
  lemma ResolvingUndeleted(prims0: map<PrimId, Prim>, cs0: seq<Conflict>, mergedMap: map<PrimId, PrimId>,
                           refs: seq<PrimId>, i: int, prims: map<PrimId, Prim>, cs: seq<Conflict>, out: seq<PrimId>)
    requires Resolving(prims0, cs0, mergedMap, refs, i, prims, cs, out) && i < |refs| && refs[i] in mergedMap
    requires mergedMap[refs[i]] in prims0
    requires prims[mergedMap[refs[i]]].deleted && !HasConflictForMy(cs, mergedMap[refs[i]])
    ensures var t := mergedMap[refs[i]];
            Resolving(prims0, cs0, mergedMap, refs, i + 1, prims[t := prims[t].(deleted := false)],
                      cs + [Conflict(t, refs[i], true)], out + [t])
  {
    var ref := refs[i];
    var t := mergedMap[ref];
    var cs' := cs + [Conflict(t, ref, true)];
    var prims' := prims[t := prims[t].(deleted := false)];
    var out' := out + [t];
    ResolvingStatus(prims0, cs0, mergedMap, refs, i, prims, cs, out, t);
    RepairStep(prims0, cs0, prims, cs, t, ref);
    forall j | 0 <= j < i
      ensures Repaired(prims', cs', out'[j])
    {
      assert out'[j] == out[j];
      RepairedKept(prims, cs, t, ref, out[j]);
    }
    assert Repaired(prims', cs', t);
  }

  /** Un-deleting a target that needs repair and has not had it, under one more conflict. */
  lemma RepairStep(prims0: map<PrimId, Prim>, cs0: seq<Conflict>, prims: map<PrimId, Prim>, cs: seq<Conflict>,
                   t: PrimId, ref: PrimId)
    requires RepairsOnly(prims0, cs0, cs) && UndeletedByConflicts(prims0, prims, cs, |cs0|)
    requires NeedsRepair(prims0, cs0, t) && !NewConflictFor(cs, |cs0|, t) && !HasConflictForMy(cs, t)
    ensures var cs' := cs + [Conflict(t, ref, true)];
            && RepairsOnly(prims0, cs0, cs')
            && UndeletedByConflicts(prims0, prims[t := prims[t].(deleted := false)], cs', |cs0|)
            && NewConflictFor(cs', |cs0|, t)
            && forall k :: NewConflictFor(cs, |cs0|, k) ==> NewConflictFor(cs', |cs0|, k)
  {
    var cs' := cs + [Conflict(t, ref, true)];
    var n := |cs0|;
    assert cs'[..|cs|] == cs;
    assert cs'[..n] == cs[..n];
    assert cs'[|cs|].my == t;
    forall k | k != t
      ensures NewConflictFor(cs', n, k) <==> NewConflictFor(cs, n, k)
    {
      if NewConflictFor(cs', n, k) {
        var j :| n <= j < |cs'| && cs'[j].my == k;
        assert cs[j] == cs'[j];
      }
    }
  }


  /** What the loop state says about the references resolved so far, in the terms of the whole list. */
  lemma ResolvedPrefix(prims0: map<PrimId, Prim>, cs0: seq<Conflict>, mergedMap: map<PrimId, PrimId>,
                       refs: seq<PrimId>, i: int, prims: map<PrimId, Prim>, cs: seq<Conflict>, out: seq<PrimId>)
    requires Resolving(prims0, cs0, mergedMap, refs, i, prims, cs, out)
    ensures RepairsRecorded(prims0, cs0, cs, mergedMap, refs[..i])
  {
    forall ref | ref in refs[..i] && ref in mergedMap && NeedsRepair(prims0, cs0, mergedMap[ref])
      ensures NewConflictFor(cs, |cs0|, mergedMap[ref])
    {
      var x :| 0 <= x < i && refs[x] == ref;
    }
  }

  /**
   * The loop shared by mergeNodeList and mergeRelationMembers, on the
   * primitives `prims` and conflicts `cs` of the target: map every reference
   * to its merge target; a deleted target without a my-side conflict gets
   * one (isMyDeleted), against the reference, and is un-deleted. The first
   * `done` references are resolved; a failure is the next one, which has no
   * merge target.
   */
  method ResolveReferences(prims0: map<PrimId, Prim>, cs0: seq<Conflict>, mergedMap: map<PrimId, PrimId>,
                           refs: seq<PrimId>)
    returns (prims: map<PrimId, Prim>, cs: seq<Conflict>, r: Result<seq<PrimId>, PrimId>, ghost done: nat)
    requires forall k :: k in mergedMap ==> mergedMap[k] in prims0
    ensures |cs0| <= |cs| && cs[..|cs0|] == cs0
    ensures OnlyUndeletes(prims0, prims, cs)
    ensures r.Success? <==> forall ref :: ref in refs ==> ref in mergedMap
    ensures r.Failure? ==> r.error in refs && r.error !in mergedMap
    ensures r.Success? ==> |r.value| == |refs|
    ensures r.Success? ==> forall i :: 0 <= i < |refs| ==> r.value[i] == mergedMap[refs[i]]
    ensures r.Success? ==> forall i :: 0 <= i < |refs| ==> Repaired(prims, cs, r.value[i])
    ensures forall j :: |cs0| <= j < |cs| ==> RepairConflict(cs[j], refs, mergedMap)
    // the resolved prefix, and the reference a failure stops at
    ensures done <= |refs| && forall i :: 0 <= i < done ==> refs[i] in mergedMap
    ensures r.Success? ==> done == |refs|
    ensures r.Failure? ==> done < |refs| && r.error == refs[done]
    // exactly the targets that needed repair are un-deleted, each under one new conflict
    ensures RepairsOnly(prims0, cs0, cs)
    ensures UndeletedByConflicts(prims0, prims, cs, |cs0|)
    ensures RepairsRecorded(prims0, cs0, cs, mergedMap, refs[..done])
  {
    prims := prims0;
    cs := cs0;
    var out: seq<PrimId> := [];
    var i := 0;
    assert cs[..|cs0|] == cs0;
    while i < |refs|
      invariant Resolving(prims0, cs0, mergedMap, refs, i, prims, cs, out)
    {
      var ref := refs[i];
      if ref !in mergedMap {
        UndeletedOnlyUndeletes(prims0, prims, cs, |cs0|);
        ResolvedPrefix(prims0, cs0, mergedMap, refs, i, prims, cs, out);
        return prims, cs, Failure(ref), i;
      }
      var t := mergedMap[ref];
      var p := prims[t];
      if p.deleted && !HasConflictForMy(cs, t) {
        ResolvingUndeleted(prims0, cs0, mergedMap, refs, i, prims, cs, out);
        cs := cs + [Conflict(t, ref, true)];
        prims := prims[t := p.(deleted := false)];
      } else {
        ResolvingKept(prims0, cs0, mergedMap, refs, i, prims, cs, out);
      }
      out := out + [t];
      i := i + 1;
    }
    UndeletedOnlyUndeletes(prims0, prims, cs, |cs0|);
    ResolvedPrefix(prims0, cs0, mergedMap, refs, i, prims, cs, out);
    assert refs[..i] == refs;
    r, done := Success(out), i;
  }

  /** With no conflict added, nothing is un-deleted and every statement about new conflicts holds. */
  lemma NothingRepaired(prims0: map<PrimId, Prim>, cs0: seq<Conflict>, mergedMap: map<PrimId, PrimId>,
                        refs: seq<PrimId>)
    ensures UndeletedByConflicts(prims0, prims0, cs0, |cs0|)
    ensures RepairsOnly(prims0, cs0, cs0)
  {
    assert cs0[..|cs0|] == cs0;
  }

  /** Putting back the original node list of `k` after setting a new one undoes the change. */
  lemma NodesRestored(before: map<PrimId, Prim>, mid: map<PrimId, Prim>, cs: seq<Conflict>, k: PrimId,
                      ns: seq<PrimId>)
    requires OnlyUndeletes(before, mid, cs) && k in mid
    ensures mid[k := mid[k].(nodes := ns)][k := mid[k].(nodes := before[k].nodes)] == mid
  {
    assert SameOrUndeleted(before[k], mid[k], cs, k);
  }

  /** Putting back the original member list of `k` after setting a new one undoes the change. */
  lemma MembersRestored(before: map<PrimId, Prim>, mid: map<PrimId, Prim>, cs: seq<Conflict>, k: PrimId,
                        ms: seq<Member>)
    requires OnlyUndeletes(before, mid, cs) && k in mid
    ensures mid[k := mid[k].(members := ms)][k := mid[k].(members := before[k].members)] == mid
  {
    assert SameOrUndeleted(before[k], mid[k], cs, k);
  }

  /** `a` is `b` up to its node and member lists, or `b` un-deleted under a my-side conflict for `k`. */
  predicate SameUpToLinks(b: Prim, a: Prim, cs: seq<Conflict>, k: PrimId) {
    SameOrUndeleted(b, a.(nodes := b.nodes, members := b.members), cs, k)
  }

  /** `after` differs from `before` at most by un-deleting under a conflict and by new node or member lists. */
  predicate OnlyRelinks(before: map<PrimId, Prim>, after: map<PrimId, Prim>, cs: seq<Conflict>) {
    before.Keys == after.Keys &&
    forall k :: k in before ==> SameUpToLinks(before[k], after[k], cs, k)
  }

  /** One changed node list on top of un-deletions is a relink. */
  lemma RelinkNodes(before: map<PrimId, Prim>, after: map<PrimId, Prim>, cs: seq<Conflict>, k: PrimId)
    requires k in after && k in before && OnlyUndeletes(before, after[k := after[k].(nodes := before[k].nodes)], cs)
    ensures OnlyRelinks(before, after, cs)
  {
    var restored := after[k := after[k].(nodes := before[k].nodes)];
    forall k' | k' in before
      ensures SameUpToLinks(before[k'], after[k'], cs, k')
    {
      assert SameOrUndeleted(before[k'], restored[k'], cs, k');
    }
  }

  /** One changed member list on top of un-deletions is a relink. */
  lemma RelinkMembers(before: map<PrimId, Prim>, after: map<PrimId, Prim>, cs: seq<Conflict>, k: PrimId)
    requires k in after && k in before && OnlyUndeletes(before, after[k := after[k].(members := before[k].members)], cs)
    ensures OnlyRelinks(before, after, cs)
  {
    var restored := after[k := after[k].(members := before[k].members)];
    forall k' | k' in before
      ensures SameUpToLinks(before[k'], after[k'], cs, k')
    {
      assert SameOrUndeleted(before[k'], restored[k'], cs, k');
    }
  }

  /** Un-deletions alone are a relink. */
  lemma UndeletesAreRelinks(before: map<PrimId, Prim>, after: map<PrimId, Prim>, cs: seq<Conflict>)
    requires OnlyUndeletes(before, after, cs)
    ensures OnlyRelinks(before, after, cs)
  {
    forall k | k in before
      ensures SameUpToLinks(before[k], after[k], cs, k)
    {
      assert SameOrUndeleted(before[k], after[k], cs, k);
    }
  }

  lemma OnlyRelinksTrans(a: map<PrimId, Prim>, b: map<PrimId, Prim>, c: map<PrimId, Prim>,
                         cs1: seq<Conflict>, cs2: seq<Conflict>)
    requires OnlyRelinks(a, b, cs1) && OnlyRelinks(b, c, cs2)
    requires |cs1| <= |cs2| && cs2[..|cs1|] == cs1
    ensures OnlyRelinks(a, c, cs2)
  {
    forall k | k in a
      ensures SameUpToLinks(a[k], c[k], cs2, k)
    {
      assert SameUpToLinks(a[k], b[k], cs1, k) && SameUpToLinks(b[k], c[k], cs2, k);
      if b[k].(nodes := a[k].nodes, members := a[k].members) != a[k] {
        ConflictForMyKept(cs1, cs2, k);
      }
    }
  }

  /** The references of a source way (its nodes) or relation (its members' primitives). */
  function ChildRefs(k: PrimId, p: Prim): seq<PrimId> {
    match k.kind
    case Node => []
    case Way => p.nodes
    case Relation => MemberRefs(p.members)
  }

  /** Every reference in `refs` has a merge target that is not deleted, or deleted under a my-side conflict. */
  ghost predicate ChildrenRepaired(prims: map<PrimId, Prim>, cs: seq<Conflict>, mergedMap: map<PrimId, PrimId>,
                                   refs: seq<PrimId>) {
    forall ref :: ref in refs ==> ref in mergedMap && Repaired(prims, cs, mergedMap[ref])
  }

  /** Relinks and further conflicts keep repaired references repaired. */
  lemma ChildrenRepairedKept(p1: map<PrimId, Prim>, cs1: seq<Conflict>, p2: map<PrimId, Prim>, cs2: seq<Conflict>,
                             mergedMap: map<PrimId, PrimId>, refs: seq<PrimId>)
    requires ChildrenRepaired(p1, cs1, mergedMap, refs) && OnlyRelinks(p1, p2, cs2)
    requires |cs1| <= |cs2| && cs2[..|cs1|] == cs1
    ensures ChildrenRepaired(p2, cs2, mergedMap, refs)
  {
    forall ref | ref in refs
      ensures Repaired(p2, cs2, mergedMap[ref])
    {
      var t := mergedMap[ref];
      assert SameUpToLinks(p1[t], p2[t], cs2, t);
      if p2[t].deleted && p1[t].deleted {
        ConflictForMyKept(cs1, cs2, t);
      }
    }
  }

  /** A new node list leaves every deletion flag, and so every repaired reference, as it was. */
  lemma SetNodesKeepsRepaired(prims: map<PrimId, Prim>, cs: seq<Conflict>, mergedMap: map<PrimId, PrimId>,
                              refs: seq<PrimId>, k: PrimId, ns: seq<PrimId>)
    requires ChildrenRepaired(prims, cs, mergedMap, refs) && k in prims
    ensures ChildrenRepaired(prims[k := prims[k].(nodes := ns)], cs, mergedMap, refs)
  {
    var after := prims[k := prims[k].(nodes := ns)];
    forall ref | ref in refs
      ensures Repaired(after, cs, mergedMap[ref])
    {
      assert Repaired(prims, cs, mergedMap[ref]);
    }
  }

  /** A new member list leaves every deletion flag, and so every repaired reference, as it was. */
  lemma SetMembersKeepsRepaired(prims: map<PrimId, Prim>, cs: seq<Conflict>, mergedMap: map<PrimId, PrimId>,
                                refs: seq<PrimId>, k: PrimId, ms: seq<Member>)
    requires ChildrenRepaired(prims, cs, mergedMap, refs) && k in prims
    ensures ChildrenRepaired(prims[k := prims[k].(members := ms)], cs, mergedMap, refs)
  {
    var after := prims[k := prims[k].(members := ms)];
    forall ref | ref in refs
      ensures Repaired(after, cs, mergedMap[ref])
    {
      assert Repaired(prims, cs, mergedMap[ref]);
    }
  }

  /** A their-side conflict stays recorded when further conflicts are appended. */
  lemma ConflictForTheirKept(cs1: seq<Conflict>, cs2: seq<Conflict>, k: PrimId)
    requires |cs1| <= |cs2| && cs2[..|cs1|] == cs1
    requires HasConflictForTheir(cs1, k)
    ensures HasConflictForTheir(cs2, k)
  {
    var c :| 0 <= c < |cs1| && cs1[c].their == k;
    assert cs2[c] == cs1[c];
  }

  /** The members' referenced identities, in member order. */
  function MemberRefs(ms: seq<Member>): (refs: seq<PrimId>)
    ensures |refs| == |ms| && forall i :: 0 <= i < |ms| ==> refs[i] == ms[i].ref
  {
    seq(|ms|, i requires 0 <= i < |ms| => ms[i].ref)
  }

  /** The effect of a ladder disposition on the target primitive itself. */
  function Applied(d: Disposition, t: Prim, s: Prim, mergeFrom: (Prim, Prim) -> Prim): Prim {
    match d
    case AdoptSource => mergeFrom(t, s)
    case UndeleteWithConflict => t.(deleted := false)
    case ClearModified => t.(modified := false)
    case _ => t
  }

  /**
   * The way target `tw` carries the merge targets of `nodes` as its node list,
   * and apart from that list the primitives are `before` with exactly the
   * primitives that have a conflict from index `n` on un-deleted.
   */
  ghost predicate NodesMerged(before: map<PrimId, Prim>, after: map<PrimId, Prim>, cs: seq<Conflict>, n: nat,
                              mergedMap: map<PrimId, PrimId>, tw: PrimId, nodes: seq<PrimId>) {
    tw in before && tw in after &&
    NodesMapped(after[tw].nodes, nodes, mergedMap) &&
    UndeletedByConflicts(before, after[tw := after[tw].(nodes := before[tw].nodes)], cs, n)
  }

  /**
   * The relation target `tr` carries one member per source member, with its
   * role and its merge target, and apart from that list the primitives are
   * `before` with exactly the primitives that have a conflict from index `n`
   * on un-deleted.
   */
  ghost predicate MembersMerged(before: map<PrimId, Prim>, after: map<PrimId, Prim>, cs: seq<Conflict>, n: nat,
                                mergedMap: map<PrimId, PrimId>, tr: PrimId, ms: seq<Member>) {
    tr in before && tr in after &&
    MembersMapped(after[tr].members, ms, mergedMap) &&
    UndeletedByConflicts(before, after[tr := after[tr].(members := before[tr].members)], cs, n)
  }

  /** mergeNodeList on the primitives and conflicts of the target, for source way `w` with node list `nodes`. */
  method RelinkWay(prims0: map<PrimId, Prim>, cs0: seq<Conflict>, mergedMap: map<PrimId, PrimId>,
                   w: PrimId, nodes: seq<PrimId>)
    returns (prims: map<PrimId, Prim>, cs: seq<Conflict>, r: Outcome<MergeError>)
    requires forall k :: k in mergedMap ==> mergedMap[k] in prims0
    ensures |cs0| <= |cs| && cs[..|cs0|] == cs0
    ensures OnlyRelinks(prims0, prims, cs)
    ensures r.Pass? <==> w in mergedMap && forall ref :: ref in nodes ==> ref in mergedMap
    ensures r.Fail? ==> r.error.MissingMergeTarget? && r.error.id !in mergedMap && (r.error.id == w || r.error.id in nodes)
    ensures r.Pass? ==> ChildrenRepaired(prims, cs, mergedMap, nodes)
    ensures r.Pass? ==> NodesMerged(prims0, prims, cs, |cs0|, mergedMap, mergedMap[w], nodes)
    ensures r.Fail? ==> UndeletedByConflicts(prims0, prims, cs, |cs0|)
    ensures forall j :: |cs0| <= j < |cs| ==> RepairConflict(cs[j], nodes, mergedMap)
    ensures RepairsOnly(prims0, cs0, cs)
    ensures r.Pass? ==> RepairsRecorded(prims0, cs0, cs, mergedMap, nodes)
  {
    if w !in mergedMap {
      NothingRepaired(prims0, cs0, mergedMap, nodes);
      return prims0, cs0, Fail(MissingMergeTarget(w));
    }
    var tw := mergedMap[w];
    var resolved;
    ghost var done;
    prims, cs, resolved, done := ResolveReferences(prims0, cs0, mergedMap, nodes);
    if resolved.Failure? {
      UndeletesAreRelinks(prims0, prims, cs);
      return prims, cs, Fail(MissingMergeTarget(resolved.error));
    }
    ghost var mid := prims;
    assert nodes[..done] == nodes;
    prims := prims[tw := prims[tw].(nodes := resolved.value)];
    NodesRestored(prims0, mid, cs, tw, resolved.value);
    SetNodesKeepsRepaired(mid, cs, mergedMap, nodes, tw, resolved.value);
    RelinkNodes(prims0, prims, cs, tw);
    r := Pass;
  }

  /** Setting the merged member list of `tr` on top of the repairs of its members' targets. */
  lemma MembersSet(prims0: map<PrimId, Prim>, mid: map<PrimId, Prim>, cs: seq<Conflict>, n: nat,
                   mergedMap: map<PrimId, PrimId>, tr: PrimId, ms: seq<Member>, newMembers: seq<Member>)
    requires UndeletedByConflicts(prims0, mid, cs, n) && tr in prims0
    requires ChildrenRepaired(mid, cs, mergedMap, MemberRefs(ms))
    requires |newMembers| == |ms|
    requires forall i :: 0 <= i < |ms| ==> ms[i].ref in mergedMap && newMembers[i] == Member(ms[i].role, mergedMap[ms[i].ref])
    ensures var prims := mid[tr := mid[tr].(members := newMembers)];
            && OnlyRelinks(prims0, prims, cs)
            && ChildrenRepaired(prims, cs, mergedMap, MemberRefs(ms))
            && MembersMerged(prims0, prims, cs, n, mergedMap, tr, ms)
  {
    var prims := mid[tr := mid[tr].(members := newMembers)];
    UndeletedOnlyUndeletes(prims0, mid, cs, n);
    MembersRestored(prims0, mid, cs, tr, newMembers);
    SetMembersKeepsRepaired(mid, cs, mergedMap, MemberRefs(ms), tr, newMembers);
    RelinkMembers(prims0, prims, cs, tr);
  }

  /** mergeRelationMembers on the primitives and conflicts of the target, for source relation `rel` with members `ms`. */
  method RelinkRelation(prims0: map<PrimId, Prim>, cs0: seq<Conflict>, mergedMap: map<PrimId, PrimId>,
                        rel: PrimId, ms: seq<Member>)
    returns (prims: map<PrimId, Prim>, cs: seq<Conflict>, r: Outcome<MergeError>)
    requires forall k :: k in mergedMap ==> mergedMap[k] in prims0
    ensures |cs0| <= |cs| && cs[..|cs0|] == cs0
    ensures OnlyRelinks(prims0, prims, cs)
    ensures r.Pass? <==> rel in mergedMap && forall m :: m in ms ==> m.ref in mergedMap
    ensures r.Fail? ==> r.error.MissingMergeTarget? && r.error.id !in mergedMap &&
                        (r.error.id == rel || r.error.id in MemberRefs(ms))
    ensures r.Pass? ==> ChildrenRepaired(prims, cs, mergedMap, MemberRefs(ms))
    ensures r.Pass? ==> MembersMerged(prims0, prims, cs, |cs0|, mergedMap, mergedMap[rel], ms)
    ensures r.Fail? ==> UndeletedByConflicts(prims0, prims, cs, |cs0|)
    ensures forall j :: |cs0| <= j < |cs| ==> RepairConflict(cs[j], MemberRefs(ms), mergedMap)
    ensures RepairsOnly(prims0, cs0, cs)
    ensures r.Pass? ==> RepairsRecorded(prims0, cs0, cs, mergedMap, MemberRefs(ms))
  {
    if rel !in mergedMap {
      NothingRepaired(prims0, cs0, mergedMap, MemberRefs(ms));
      return prims0, cs0, Fail(MissingMergeTarget(rel));
    }
    var tr := mergedMap[rel];
    var resolved;
    ghost var done;
    prims, cs, resolved, done := ResolveReferences(prims0, cs0, mergedMap, MemberRefs(ms));
    if resolved.Failure? {
      UndeletesAreRelinks(prims0, prims, cs);
      return prims, cs, Fail(MissingMergeTarget(resolved.error));
    }
    var newMembers := seq(|ms|, i requires 0 <= i < |ms| => Member(ms[i].role, resolved.value[i]));
    assert MemberRefs(ms)[..done] == MemberRefs(ms);
    MembersSet(prims0, prims, cs, |cs0|, mergedMap, tr, ms, newMembers);
    prims := prims[tr := prims[tr].(members := newMembers)];
    r := Pass;
  }

  /** A conflict recorded by reference repair: an un-deleted merge target and the source primitive mapped to it. */
  predicate ReferenceConflict(c: Conflict, mergedMap: map<PrimId, PrimId>) {
    c.isMyDeleted && c.their in mergedMap && c.my == mergedMap[c.their]
  }

  /**
   * `after` is `before` up to node and member lists, with exactly the
   * primitives that have a conflict from index `n` on un-deleted.
   */
  predicate UndeletedUpToLinks(before: map<PrimId, Prim>, after: map<PrimId, Prim>, cs: seq<Conflict>, n: nat) {
    before.Keys == after.Keys &&
    forall k :: k in before ==>
      after[k].(nodes := before[k].nodes, members := before[k].members) ==
        if NewConflictFor(cs, n, k) then before[k].(deleted := false) else before[k]
  }

  /** Exact un-deletion, with or without one new node or member list, is exact up to links. */
  lemma UndeletedIsUpToLinks(before: map<PrimId, Prim>, after: map<PrimId, Prim>, cs: seq<Conflict>, n: nat,
                             k: PrimId, restored: map<PrimId, Prim>)
    requires UndeletedByConflicts(before, restored, cs, n)
    requires restored == after ||
             (k in before && k in after &&
              (restored == after[k := after[k].(nodes := before[k].nodes)] ||
               restored == after[k := after[k].(members := before[k].members)]))
    ensures UndeletedUpToLinks(before, after, cs, n)
  {
    forall k' | k' in before
      ensures after[k'].(nodes := before[k'].nodes, members := before[k'].members) ==
                if NewConflictFor(cs, n, k') then before[k'].(deleted := false) else before[k']
    {
      assert restored[k'].(nodes := before[k'].nodes, members := before[k'].members) ==
               after[k'].(nodes := before[k'].nodes, members := before[k'].members);
    }
  }

  /** A conflict from index `n1` on is one from any earlier index `n0` on, in any extension. */
  lemma NewConflictWidened(cs1: seq<Conflict>, cs2: seq<Conflict>, n0: nat, n1: nat, k: PrimId)
    requires |cs1| <= |cs2| && cs2[..|cs1|] == cs1 && n0 <= n1
    requires NewConflictFor(cs1, n1, k)
    ensures NewConflictFor(cs2, n0, k)
  {
    var j :| n1 <= j < |cs1| && cs1[j].my == k;
    assert cs2[j] == cs1[j];
  }

  /** The conflicts of `cs2` from `|cs1|` on, with those of `cs1` from `n0` on, are those of `cs2` from `n0` on. */
  lemma NewConflictSplit(cs1: seq<Conflict>, cs2: seq<Conflict>, n0: nat, k: PrimId)
    requires |cs1| <= |cs2| && cs2[..|cs1|] == cs1 && n0 <= |cs1|
    ensures NewConflictFor(cs2, n0, k) <==> NewConflictFor(cs1, n0, k) || NewConflictFor(cs2, |cs1|, k)
  {
    if NewConflictFor(cs2, n0, k) && !NewConflictFor(cs2, |cs1|, k) {
      var j :| n0 <= j < |cs2| && cs2[j].my == k;
      assert cs1[j] == cs2[j];
    }
    if NewConflictFor(cs1, n0, k) {
      NewConflictWidened(cs1, cs2, n0, n0, k);
    }
    if NewConflictFor(cs2, |cs1|, k) {
      NewConflictWidened(cs2, cs2, n0, |cs1|, k);
    }
  }

  /** Exact un-deletion up to links composes. */
  lemma UndeletedUpToLinksTrans(a: map<PrimId, Prim>, b: map<PrimId, Prim>, c: map<PrimId, Prim>,
                                cs1: seq<Conflict>, cs2: seq<Conflict>, n0: nat)
    requires UndeletedUpToLinks(a, b, cs1, n0) && UndeletedUpToLinks(b, c, cs2, |cs1|)
    requires |cs1| <= |cs2| && cs2[..|cs1|] == cs1 && n0 <= |cs1|
    ensures UndeletedUpToLinks(a, c, cs2, n0)
  {
    forall k | k in a
      ensures c[k].(nodes := a[k].nodes, members := a[k].members) ==
                if NewConflictFor(cs2, n0, k) then a[k].(deleted := false) else a[k]
    {
      NewConflictSplit(cs1, cs2, n0, k);
      var bk := b[k].(nodes := a[k].nodes, members := a[k].members);
      assert c[k].(nodes := a[k].nodes, members := a[k].members) ==
               (if NewConflictFor(cs2, |cs1|, k) then bk.(deleted := false) else bk);
    }
  }

  /** Repairs on top of repairs are repairs of what was deleted at the start. */
  lemma RepairsOnlyTrans(prims0: map<PrimId, Prim>, cs0: seq<Conflict>, p1: map<PrimId, Prim>, cs1: seq<Conflict>,
                         cs: seq<Conflict>)
    requires RepairsOnly(prims0, cs0, cs1) && UndeletedUpToLinks(prims0, p1, cs1, |cs0|)
    requires RepairsOnly(p1, cs1, cs)
    ensures RepairsOnly(prims0, cs0, cs)
  {
    assert cs[..|cs0|] == cs1[..|cs0|];
    forall j | |cs1| <= j < |cs|
      ensures cs[j].my in prims0 && prims0[cs[j].my].deleted
    {
    }
    forall i, j | 0 <= i < j < |cs| && |cs0| <= j
      ensures cs[i].my != cs[j].my
    {
      if j < |cs1| {
        assert cs[i] == cs1[i] && cs[j] == cs1[j];
      }
    }
  }

  /** A target that needed repair at the start still needs it later, unless it has had it. */
  lemma RepairsRecordedLift(prims0: map<PrimId, Prim>, cs0: seq<Conflict>, p1: map<PrimId, Prim>, cs1: seq<Conflict>,
                            cs: seq<Conflict>, mergedMap: map<PrimId, PrimId>, refs: seq<PrimId>)
    requires |cs0| <= |cs1| && cs1[..|cs0|] == cs0 && UndeletedUpToLinks(prims0, p1, cs1, |cs0|)
    requires |cs1| <= |cs| && cs[..|cs1|] == cs1
    requires RepairsRecorded(p1, cs1, cs, mergedMap, refs)
    ensures RepairsRecorded(prims0, cs0, cs, mergedMap, refs)
  {
    forall ref | ref in refs && ref in mergedMap && NeedsRepair(prims0, cs0, mergedMap[ref])
      ensures NewConflictFor(cs, |cs0|, mergedMap[ref])
    {
      var t := mergedMap[ref];
      if NewConflictFor(cs1, |cs0|, t) {
        NewConflictWidened(cs1, cs, |cs0|, |cs0|, t);
      } else {
        assert NeedsRepair(p1, cs1, t);
        NewConflictWidened(cs, cs, |cs0|, |cs1|, t);
      }
    }
  }

  /** Recorded repairs stay recorded when further conflicts are appended. */
  lemma RepairsRecordedKept(prims0: map<PrimId, Prim>, cs0: seq<Conflict>, cs1: seq<Conflict>, cs: seq<Conflict>,
                            mergedMap: map<PrimId, PrimId>, refs: seq<PrimId>)
    requires RepairsRecorded(prims0, cs0, cs1, mergedMap, refs)
    requires |cs1| <= |cs| && cs[..|cs1|] == cs1
    ensures RepairsRecorded(prims0, cs0, cs, mergedMap, refs)
  {
    forall ref | ref in refs && ref in mergedMap && NeedsRepair(prims0, cs0, mergedMap[ref])
      ensures NewConflictFor(cs, |cs0|, mergedMap[ref])
    {
      NewConflictWidened(cs1, cs, |cs0|, |cs0|, mergedMap[ref]);
    }
  }

  /**
   * The child lists of `k` are fixed, unless a their-side conflict or the
   * absence of a pending merge excuses it: every reference has a merge
   * target that is not deleted, or deleted under a my-side conflict, and
   * every target that needed repair in `prims0`/`cs0` got its conflict.
   */
  ghost predicate ChildListsFixed(prims0: map<PrimId, Prim>, cs0: seq<Conflict>,
                                  prims: map<PrimId, Prim>, cs: seq<Conflict>, mergedMap: map<PrimId, PrimId>,
                                  src: map<PrimId, Prim>, children: set<PrimId>, k: PrimId)
    requires k in src
  {
    k in children && !HasConflictForTheir(cs, k) ==>
      && k in mergedMap
      && ChildrenRepaired(prims, cs, mergedMap, ChildRefs(k, src[k]))
      && RepairsRecorded(prims0, cs0, cs, mergedMap, ChildRefs(k, src[k]))
  }

  /** Relinks and further conflicts keep fixed child lists fixed. */
  lemma ChildListsFixedKept(prims0: map<PrimId, Prim>, cs0: seq<Conflict>,
                            p1: map<PrimId, Prim>, cs1: seq<Conflict>, p2: map<PrimId, Prim>, cs2: seq<Conflict>,
                            mergedMap: map<PrimId, PrimId>, src: map<PrimId, Prim>, children: set<PrimId>,
                            ks: seq<PrimId>)
    requires forall k :: k in ks ==> k in src && ChildListsFixed(prims0, cs0, p1, cs1, mergedMap, src, children, k)
    requires OnlyRelinks(p1, p2, cs2) && |cs1| <= |cs2| && cs2[..|cs1|] == cs1
    ensures forall k :: k in ks ==> ChildListsFixed(prims0, cs0, p2, cs2, mergedMap, src, children, k)
  {
    forall k | k in ks && k in children && !HasConflictForTheir(cs2, k)
      ensures k in mergedMap && ChildrenRepaired(p2, cs2, mergedMap, ChildRefs(k, src[k]))
      ensures RepairsRecorded(prims0, cs0, cs2, mergedMap, ChildRefs(k, src[k]))
    {
      if HasConflictForTheir(cs1, k) {
        ConflictForTheirKept(cs1, cs2, k);
      }
      ChildrenRepairedKept(p1, cs1, p2, cs2, mergedMap, ChildRefs(k, src[k]));
      RepairsRecordedKept(prims0, cs0, cs1, cs2, mergedMap, ChildRefs(k, src[k]));
    }
  }

  /** `nodes` are the merge targets of the source nodes `refs`, same length, same order. */
  ghost predicate NodesMapped(nodes: seq<PrimId>, refs: seq<PrimId>, mergedMap: map<PrimId, PrimId>) {
    |nodes| == |refs| && forall i :: 0 <= i < |refs| ==> refs[i] in mergedMap && nodes[i] == mergedMap[refs[i]]
  }

  /** `members` are the source members `ms` with their roles and their merge targets, same order. */
  ghost predicate MembersMapped(members: seq<Member>, ms: seq<Member>, mergedMap: map<PrimId, PrimId>) {
    |members| == |ms| &&
    forall i :: 0 <= i < |ms| ==> ms[i].ref in mergedMap && members[i] == Member(ms[i].role, mergedMap[ms[i].ref])
  }

  /** The entries of `items` at the indices not in `skipped`, in listing order. */
  function Picked(items: seq<PrimId>, skipped: set<nat>): (r: seq<PrimId>)
    ensures |r| <= |items|
    ensures forall k :: k in r ==> k in items
  {
    if items == [] then []
    else
      var n := |items| - 1;
      Picked(items[..n], skipped) + (if n in skipped then [] else [items[n]])
  }

  /** Indices beyond the end of `items` pick nothing away. */
  lemma {:induction false} PickedBeyond(items: seq<PrimId>, skipped: set<nat>, j: nat)
    requires |items| <= j
    ensures Picked(items, skipped + {j}) == Picked(items, skipped)
  {
    if items != [] {
      PickedBeyond(items[..|items| - 1], skipped, j);
    }
  }

  /**
   * The last primitive of kind `kind` in `relinked` whose merge target is
   * `t`: the one whose list `t` ends up with when several source primitives
   * are merged onto it.
   */
  function LastRelinked(relinked: seq<PrimId>, mergedMap: map<PrimId, PrimId>, t: PrimId, kind: Kind): (r: Option<PrimId>)
    ensures r.Some? ==> r.value in relinked && r.value.kind == kind && r.value in mergedMap && mergedMap[r.value] == t
    ensures r.None? ==> forall k :: k in relinked && k.kind == kind && k in mergedMap ==> mergedMap[k] != t
  {
    if relinked == [] then None
    else
      var n := |relinked| - 1;
      var k := relinked[n];
      assert relinked == relinked[..n] + [k];
      if k.kind == kind && k in mergedMap && mergedMap[k] == t then Some(k)
      else LastRelinked(relinked[..n], mergedMap, t, kind)
  }

  /** A later relink onto `t` of the same kind wins; one of another kind or onto another target changes nothing. */
  lemma LastRelinkedNext(relinked: seq<PrimId>, mergedMap: map<PrimId, PrimId>, t: PrimId, kind: Kind, k: PrimId)
    ensures LastRelinked(relinked + [k], mergedMap, t, kind) ==
              if k.kind == kind && k in mergedMap && mergedMap[k] == t then Some(k)
              else LastRelinked(relinked, mergedMap, t, kind)
  {
    assert (relinked + [k])[..|relinked|] == relinked;
  }

  /**
   * The lists of target primitive `t` went from `b` to `a` by relinking
   * `relinked` in order: its node list is the mapped node list of the last
   * source way merged onto it, its member list the mapped member list of
   * the last source relation merged onto it, and a list nothing was merged
   * onto is kept.
   */
  ghost predicate ListsOf(t: PrimId, b: Prim, a: Prim, mergedMap: map<PrimId, PrimId>, src: map<PrimId, Prim>,
                          relinked: seq<PrimId>) {
    (match LastRelinked(relinked, mergedMap, t, Way)
       case None => a.nodes == b.nodes
       case Some(w) => w in src && NodesMapped(a.nodes, src[w].nodes, mergedMap)) &&
    (match LastRelinked(relinked, mergedMap, t, Relation)
       case None => a.members == b.members
       case Some(rel) => rel in src && MembersMapped(a.members, src[rel].members, mergedMap))
  }

  /** `ListsOf` for every target primitive of `before`. */
  ghost predicate ListsRebuilt(before: map<PrimId, Prim>, after: map<PrimId, Prim>, mergedMap: map<PrimId, PrimId>,
                               src: map<PrimId, Prim>, relinked: seq<PrimId>) {
    forall t :: t in before ==> t in after && ListsOf(t, before[t], after[t], mergedMap, src, relinked)
  }

  /**
   * The relinks leave nothing open: two states that are both exact
   * un-deletions up to links of `before` and both have the lists rebuilt
   * from the same `relinked` are the same state.
   */
  lemma {:induction false} RelinkedStateDetermined(before: map<PrimId, Prim>, p: map<PrimId, Prim>,
                                                   q: map<PrimId, Prim>, cs: seq<Conflict>, n: nat,
                                                   mergedMap: map<PrimId, PrimId>, src: map<PrimId, Prim>,
                                                   relinked: seq<PrimId>)
    requires UndeletedUpToLinks(before, p, cs, n) && UndeletedUpToLinks(before, q, cs, n)
    requires ListsRebuilt(before, p, mergedMap, src, relinked) && ListsRebuilt(before, q, mergedMap, src, relinked)
    ensures p == q
  {
    forall t | t in before
      ensures p[t] == q[t]
    {
      assert ListsOf(t, before[t], p[t], mergedMap, src, relinked) && ListsOf(t, before[t], q[t], mergedMap, src, relinked);
      assert p[t].nodes == q[t].nodes;
      assert p[t].members == q[t].members;
      var b := before[t];
      assert p[t].(nodes := b.nodes, members := b.members) == q[t].(nodes := b.nodes, members := b.members);
    }
  }

  /** Every conflict from index `lo` up to `hi` of `cs` is for one of the references `refs`. */
  predicate ConflictsFrom(cs: seq<Conflict>, lo: nat, hi: nat, refs: seq<PrimId>) {
    forall i :: lo <= i < hi && i < |cs| ==> cs[i].their in refs
  }

  /**
   * The conflicts as each visit of a loop of fixReferences found them:
   * `marks[j]` is the number of conflicts when `visited[j]` came up, the
   * loop started with `cs0` and ends with `cs`. The entries at the indices
   * `skipped` are exactly those that then had no pending child merge or a
   * their-side conflict; passing one over records nothing, and every
   * conflict recorded while relinking `visited[j]` is for one of its
   * references.
   */
  ghost predicate Visits(cs0: seq<Conflict>, src: map<PrimId, Prim>, children: set<PrimId>,
                         visited: seq<PrimId>, skipped: set<nat>, marks: seq<nat>, cs: seq<Conflict>) {
    && |marks| == |visited| + 1 && marks[0] == |cs0| && marks[|visited|] == |cs|
    && (forall j :: 0 <= j < |visited| ==> marks[j] <= marks[j + 1])
    && (forall j :: 0 <= j <= |visited| ==> |cs0| <= marks[j] <= |cs|)
    && (forall j :: j in skipped ==> j < |visited| && marks[j + 1] == marks[j])
    && (forall j :: 0 <= j < |visited| ==>
          (j in skipped <==> visited[j] !in children || HasConflictForTheir(cs[..marks[j]], visited[j])))
    && (forall j :: 0 <= j < |visited| ==>
          visited[j] in src && ConflictsFrom(cs, marks[j], marks[j + 1], ChildRefs(visited[j], src[visited[j]])))
  }

  /**
   * The lists after a loop of fixReferences has visited `visited`: the
   * entries at the indices `skipped` were passed over, as `Visits` says,
   * the others, `relinked`, were relinked in order, and every list is as
   * `ListsRebuilt` says.
   */
  ghost predicate Rebuilt(prims0: map<PrimId, Prim>, cs0: seq<Conflict>, mergedMap: map<PrimId, PrimId>,
                          src: map<PrimId, Prim>, children: set<PrimId>, visited: seq<PrimId>, skipped: set<nat>,
                          marks: seq<nat>, relinked: seq<PrimId>, prims: map<PrimId, Prim>, cs: seq<Conflict>) {
    && relinked == Picked(visited, skipped)
    && Visits(cs0, src, children, visited, skipped, marks, cs)
    && (forall k :: k in relinked ==> k in children)
    && ListsRebuilt(prims0, prims, mergedMap, src, relinked)
  }

  /** One more relink, of `k` from `p1` to `prims`, rebuilds the lists of its merge target only. */
  lemma ListsRebuiltNext(prims0: map<PrimId, Prim>, p1: map<PrimId, Prim>, prims: map<PrimId, Prim>,
                         cs: seq<Conflict>, n: nat, mergedMap: map<PrimId, PrimId>, src: map<PrimId, Prim>,
                         relinked: seq<PrimId>, k: PrimId)
    requires ListsRebuilt(prims0, p1, mergedMap, src, relinked)
    requires k in src && k in mergedMap && k.kind != Node
    requires k.kind == Way ==> NodesMerged(p1, prims, cs, n, mergedMap, mergedMap[k], src[k].nodes)
    requires k.kind == Relation ==> MembersMerged(p1, prims, cs, n, mergedMap, mergedMap[k], src[k].members)
    ensures ListsRebuilt(prims0, prims, mergedMap, src, relinked + [k])
  {
    var tk := mergedMap[k];
    var restored := if k.kind == Way then prims[tk := prims[tk].(nodes := p1[tk].nodes)]
                    else prims[tk := prims[tk].(members := p1[tk].members)];
    assert UndeletedByConflicts(p1, restored, cs, n);
    forall t | t in prims0
      ensures t in prims && ListsOf(t, prims0[t], prims[t], mergedMap, src, relinked + [k])
    {
      assert t in p1 && ListsOf(t, prims0[t], p1[t], mergedMap, src, relinked);
      assert restored[t].nodes == p1[t].nodes && restored[t].members == p1[t].members;
      LastRelinkedNext(relinked, mergedMap, t, Way, k);
      LastRelinkedNext(relinked, mergedMap, t, Relation, k);
    }
  }

  /** A conflict recorded during the loop was recorded by some visit before the `j`-th. */
  lemma {:induction false} RecordedByVisit(marks: seq<nat>, j: nat, c: nat)
    requires j < |marks| && forall i :: 0 <= i < j ==> marks[i] <= marks[i + 1]
    requires marks[0] <= c < marks[j]
    ensures exists i :: 0 <= i < j && marks[i] <= c < marks[i + 1]
  {
    if c < marks[j - 1] {
      RecordedByVisit(marks, j - 1, c);
    } else {
      assert marks[j - 1] <= c < marks[j];
    }
  }

  /**
   * Why a loop of fixReferences passes over an entry: it has no pending
   * child merge, or a their-side conflict from before the loop, or an
   * entry visited before it references it (so relinking that one could have
   * recorded the conflict). An entry it relinks has a pending child merge
   * and no their-side conflict from before the loop.
   */
  lemma {:induction false} PassedOverWhy(cs0: seq<Conflict>, src: map<PrimId, Prim>, children: set<PrimId>,
                                         visited: seq<PrimId>, skipped: set<nat>, marks: seq<nat>,
                                         cs: seq<Conflict>, j: nat)
    requires Visits(cs0, src, children, visited, skipped, marks, cs) && cs[..|cs0|] == cs0
    requires j < |visited|
    ensures j in skipped ==>
              || visited[j] !in children
              || HasConflictForTheir(cs0, visited[j])
              || exists i :: 0 <= i < j && visited[j] in ChildRefs(visited[i], src[visited[i]])
    ensures j !in skipped ==> visited[j] in children && !HasConflictForTheir(cs0, visited[j])
  {
    var k := visited[j];
    if !HasConflictForTheir(cs0, k) {
      forall c | 0 <= c < |cs0|
        ensures cs[c].their != k
      {
        assert cs[c] == cs0[c];
      }
    }
    if j in skipped && k in children && !HasConflictForTheir(cs0, k) {
      var c :| 0 <= c < marks[j] && cs[..marks[j]][c].their == k;
      assert cs[c].their == k;
      RecordedByVisit(marks, j, c);
      var i :| 0 <= i < j && marks[i] <= c < marks[i + 1];
      assert ConflictsFrom(cs, marks[i], marks[i + 1], ChildRefs(visited[i], src[visited[i]]));
    }
  }

  /** A passed-over primitive is visited with the conflicts as they are and records none. */
  lemma VisitsSkip(cs0: seq<Conflict>, src: map<PrimId, Prim>, children: set<PrimId>, visited: seq<PrimId>,
                   skipped: set<nat>, marks: seq<nat>, cs: seq<Conflict>, k: PrimId)
    requires Visits(cs0, src, children, visited, skipped, marks, cs)
    requires k in src && (k !in children || HasConflictForTheir(cs, k))
    ensures Visits(cs0, src, children, visited + [k], skipped + {|visited|}, marks + [|cs|], cs)
  {
    var n := |visited|;
    var v := visited + [k];
    var m := marks + [|cs|];
    assert cs[..m[n]] == cs;
    forall j | 0 <= j < |v|
      ensures j in skipped + {n} <==> v[j] !in children || HasConflictForTheir(cs[..m[j]], v[j])
      ensures v[j] in src && ConflictsFrom(cs, m[j], m[j + 1], ChildRefs(v[j], src[v[j]]))
    {
      if j < n {
        assert v[j] == visited[j] && m[j] == marks[j] && m[j + 1] == marks[j + 1];
      }
    }
  }

  /**
   * A relinked primitive had a pending merge and no their-side conflict
   * when it came up, and every conflict its relink records is for one of
   * its references.
   */
  lemma VisitsNext(cs0: seq<Conflict>, src: map<PrimId, Prim>, children: set<PrimId>, visited: seq<PrimId>,
                   skipped: set<nat>, marks: seq<nat>, cs1: seq<Conflict>, cs: seq<Conflict>, k: PrimId)
    requires Visits(cs0, src, children, visited, skipped, marks, cs1)
    requires k in src && k in children && !HasConflictForTheir(cs1, k)
    requires |cs1| <= |cs| && cs[..|cs1|] == cs1
    requires ConflictsFrom(cs, |cs1|, |cs|, ChildRefs(k, src[k]))
    ensures Visits(cs0, src, children, visited + [k], skipped, marks + [|cs|], cs)
  {
    var n := |visited|;
    var v := visited + [k];
    var m := marks + [|cs|];
    assert cs[..m[n]] == cs1;
    forall j | 0 <= j < |v|
      ensures j in skipped <==> v[j] !in children || HasConflictForTheir(cs[..m[j]], v[j])
      ensures v[j] in src && ConflictsFrom(cs, m[j], m[j + 1], ChildRefs(v[j], src[v[j]]))
    {
      if j < n {
        assert v[j] == visited[j] && m[j] == marks[j] && m[j + 1] == marks[j + 1];
        assert cs[..m[j]] == cs1[..marks[j]];
        forall i | m[j] <= i < m[j + 1] && i < |cs|
          ensures cs[i].their in ChildRefs(v[j], src[v[j]])
        {
          assert cs[i] == cs1[i];
        }
      }
    }
  }

  /** A passed-over primitive leaves the lists as they are and records no conflict. */
  lemma RebuiltSkip(prims0: map<PrimId, Prim>, cs0: seq<Conflict>, mergedMap: map<PrimId, PrimId>,
                    src: map<PrimId, Prim>, children: set<PrimId>, visited: seq<PrimId>, skipped: set<nat>,
                    marks: seq<nat>, relinked: seq<PrimId>, prims: map<PrimId, Prim>, cs: seq<Conflict>, k: PrimId)
    requires Rebuilt(prims0, cs0, mergedMap, src, children, visited, skipped, marks, relinked, prims, cs)
    requires k in src && (k !in children || HasConflictForTheir(cs, k))
    ensures Rebuilt(prims0, cs0, mergedMap, src, children, visited + [k], skipped + {|visited|},
                    marks + [|cs|], relinked, prims, cs)
  {
    var n := |visited|;
    var v := visited + [k];
    assert v[..n] == visited;
    PickedBeyond(visited, skipped, n);
    assert Picked(v, skipped + {n}) == Picked(visited, skipped + {n});
    VisitsSkip(cs0, src, children, visited, skipped, marks, cs, k);
  }

  /**
   * A relinked primitive, which had a pending merge and no their-side
   * conflict when it came up, is appended to `relinked`, and the lists of
   * its merge target are rebuilt.
   */
  lemma RebuiltNext(prims0: map<PrimId, Prim>, cs0: seq<Conflict>, mergedMap: map<PrimId, PrimId>,
                    src: map<PrimId, Prim>, children: set<PrimId>, visited: seq<PrimId>, skipped: set<nat>,
                    marks: seq<nat>, relinked: seq<PrimId>,
                    p1: map<PrimId, Prim>, cs1: seq<Conflict>, prims: map<PrimId, Prim>, cs: seq<Conflict>,
                    k: PrimId)
    requires Rebuilt(prims0, cs0, mergedMap, src, children, visited, skipped, marks, relinked, p1, cs1)
    requires k in src && k in children && !HasConflictForTheir(cs1, k) && k in mergedMap && k.kind != Node
    requires |cs1| <= |cs| && cs[..|cs1|] == cs1
    requires ConflictsFrom(cs, |cs1|, |cs|, ChildRefs(k, src[k]))
    requires k.kind == Way ==> NodesMerged(p1, prims, cs, |cs1|, mergedMap, mergedMap[k], src[k].nodes)
    requires k.kind == Relation ==> MembersMerged(p1, prims, cs, |cs1|, mergedMap, mergedMap[k], src[k].members)
    ensures Rebuilt(prims0, cs0, mergedMap, src, children, visited + [k], skipped, marks + [|cs|],
                    relinked + [k], prims, cs)
  {
    var v := visited + [k];
    assert v[..|visited|] == visited;
    ListsRebuiltNext(prims0, p1, prims, cs, |cs1|, mergedMap, src, relinked, k);
    VisitsNext(cs0, src, children, visited, skipped, marks, cs1, cs, k);
  }

  /** mergeNodeList for a source way, mergeRelationMembers for a source relation. */
  method RelinkOne(prims0: map<PrimId, Prim>, cs0: seq<Conflict>, mergedMap: map<PrimId, PrimId>,
                   src: map<PrimId, Prim>, k: PrimId)
    returns (prims: map<PrimId, Prim>, cs: seq<Conflict>, r: Outcome<MergeError>)
    requires forall k :: k in mergedMap ==> mergedMap[k] in prims0
    requires k in src && k.kind != Node
    ensures |cs0| <= |cs| && cs[..|cs0|] == cs0
    ensures OnlyRelinks(prims0, prims, cs)
    ensures r.Fail? ==> r.error.MissingMergeTarget? && r.error.id !in mergedMap
    ensures r.Pass? ==> k in mergedMap && ChildrenRepaired(prims, cs, mergedMap, ChildRefs(k, src[k]))
    ensures forall j :: |cs0| <= j < |cs| ==> ReferenceConflict(cs[j], mergedMap)
    ensures ConflictsFrom(cs, |cs0|, |cs|, ChildRefs(k, src[k]))
    ensures RepairsOnly(prims0, cs0, cs) && UndeletedUpToLinks(prims0, prims, cs, |cs0|)
    ensures r.Pass? ==> RepairsRecorded(prims0, cs0, cs, mergedMap, ChildRefs(k, src[k]))
    ensures r.Pass? && k.kind == Way ==> NodesMerged(prims0, prims, cs, |cs0|, mergedMap, mergedMap[k], src[k].nodes)
    ensures r.Pass? && k.kind == Relation ==>
              MembersMerged(prims0, prims, cs, |cs0|, mergedMap, mergedMap[k], src[k].members)
  {
    if k.kind == Way {
      prims, cs, r := RelinkWay(prims0, cs0, mergedMap, k, src[k].nodes);
      if r.Pass? {
        UndeletedIsUpToLinks(prims0, prims, cs, |cs0|, mergedMap[k],
                             prims[mergedMap[k] := prims[mergedMap[k]].(nodes := prims0[mergedMap[k]].nodes)]);
      } else {
        UndeletedIsUpToLinks(prims0, prims, cs, |cs0|, k, prims);
      }
    } else {
      prims, cs, r := RelinkRelation(prims0, cs0, mergedMap, k, src[k].members);
      if r.Pass? {
        UndeletedIsUpToLinks(prims0, prims, cs, |cs0|, mergedMap[k],
                             prims[mergedMap[k] := prims[mergedMap[k]].(members := prims0[mergedMap[k]].members)]);
      } else {
        UndeletedIsUpToLinks(prims0, prims, cs, |cs0|, k, prims);
      }
    }
    forall j | |cs0| <= j < |cs|
      ensures ReferenceConflict(cs[j], mergedMap) && cs[j].their in ChildRefs(k, src[k])
    {
      assert RepairConflict(cs[j], ChildRefs(k, src[k]), mergedMap);
    }
  }

  /**
   * The state of a loop of fixReferences after the primitives `visited`:
   * only relinks and exact un-deletions so far, each new conflict records a
   * reference and repairs a target that needed it, and the child lists of
   * every visited primitive are fixed.
   */
  ghost predicate Relinked(prims0: map<PrimId, Prim>, cs0: seq<Conflict>, mergedMap: map<PrimId, PrimId>,
                           src: map<PrimId, Prim>, children: set<PrimId>, visited: seq<PrimId>,
                           prims: map<PrimId, Prim>, cs: seq<Conflict>)
  {
    && |cs0| <= |cs| && cs[..|cs0|] == cs0
    && OnlyRelinks(prims0, prims, cs)
    && RepairsOnly(prims0, cs0, cs) && UndeletedUpToLinks(prims0, prims, cs, |cs0|)
    && (forall j :: |cs0| <= j < |cs| ==> ReferenceConflict(cs[j], mergedMap))
    && (forall k :: k in visited ==> k in src && ChildListsFixed(prims0, cs0, prims, cs, mergedMap, src, children, k))
  }

  /** A primitive with a their-side conflict or without a pending merge is passed over. */
  lemma RelinkedSkip(prims0: map<PrimId, Prim>, cs0: seq<Conflict>, mergedMap: map<PrimId, PrimId>,
                     src: map<PrimId, Prim>, children: set<PrimId>, visited: seq<PrimId>,
                     prims: map<PrimId, Prim>, cs: seq<Conflict>, k: PrimId)
    requires Relinked(prims0, cs0, mergedMap, src, children, visited, prims, cs)
    requires k in src && (HasConflictForTheir(cs, k) || k !in children)
    ensures Relinked(prims0, cs0, mergedMap, src, children, visited + [k], prims, cs)
  {
  }

  /**
   * Relinking one more primitive from the state `p1`/`cs1` of the loop keeps
   * the relinks, the exact un-deletions and what each new conflict records;
   * when it succeeds, its child lists are fixed as well.
   */
  lemma RelinkedNext(prims0: map<PrimId, Prim>, cs0: seq<Conflict>, mergedMap: map<PrimId, PrimId>,
                     src: map<PrimId, Prim>, children: set<PrimId>, visited: seq<PrimId>,
                     p1: map<PrimId, Prim>, cs1: seq<Conflict>, prims: map<PrimId, Prim>, cs: seq<Conflict>,
                     k: PrimId, pass: bool)
    requires Relinked(prims0, cs0, mergedMap, src, children, visited, p1, cs1) && k in src
    requires |cs1| <= |cs| && cs[..|cs1|] == cs1 && OnlyRelinks(p1, prims, cs)
    requires RepairsOnly(p1, cs1, cs) && UndeletedUpToLinks(p1, prims, cs, |cs1|)
    requires forall j :: |cs1| <= j < |cs| ==> ReferenceConflict(cs[j], mergedMap)
    requires pass ==> k in mergedMap && ChildrenRepaired(prims, cs, mergedMap, ChildRefs(k, src[k])) &&
                      RepairsRecorded(p1, cs1, cs, mergedMap, ChildRefs(k, src[k]))
    ensures pass ==> Relinked(prims0, cs0, mergedMap, src, children, visited + [k], prims, cs)
    ensures !pass ==> Relinked(prims0, cs0, mergedMap, src, children, [], prims, cs)
  {
    OnlyRelinksTrans(prims0, p1, prims, cs1, cs);
    RepairsOnlyTrans(prims0, cs0, p1, cs1, cs);
    UndeletedUpToLinksTrans(prims0, p1, prims, cs1, cs, |cs0|);
    assert cs[..|cs0|] == cs1[..|cs0|];
    assert forall j :: |cs0| <= j < |cs1| ==> cs[j] == cs1[j];
    ChildListsFixedKept(prims0, cs0, p1, cs1, prims, cs, mergedMap, src, children, visited);
    if pass {
      RepairsRecordedLift(prims0, cs0, p1, cs1, cs, mergedMap, ChildRefs(k, src[k]));
    }
  }

  /**
   * The guarded call of one iteration of a loop of fixReferences: `k` has a
   * pending child merge and no their-side conflict, so its node list (way)
   * or member list (relation) is merged.
   */
  method RelinkPending(prims0: map<PrimId, Prim>, cs0: seq<Conflict>, mergedMap: map<PrimId, PrimId>,
                       src: map<PrimId, Prim>, children: set<PrimId>, visited: seq<PrimId>,
                       ghost skipped: set<nat>, ghost marks0: seq<nat>, ghost relinked0: seq<PrimId>,
                       p1: map<PrimId, Prim>, cs1: seq<Conflict>, k: PrimId)
    returns (prims: map<PrimId, Prim>, cs: seq<Conflict>, r: Outcome<MergeError>,
             ghost relinked: seq<PrimId>, ghost marks: seq<nat>)
    requires forall k :: k in mergedMap ==> mergedMap[k] in prims0
    requires k in src && k.kind != Node && k in children && !HasConflictForTheir(cs1, k)
    requires Relinked(prims0, cs0, mergedMap, src, children, visited, p1, cs1)
    requires Rebuilt(prims0, cs0, mergedMap, src, children, visited, skipped, marks0, relinked0, p1, cs1)
    ensures r.Fail? ==> r.error.MissingMergeTarget? && r.error.id !in mergedMap &&
                        Relinked(prims0, cs0, mergedMap, src, children, [], prims, cs)
    ensures r.Pass? ==> Relinked(prims0, cs0, mergedMap, src, children, visited + [k], prims, cs) &&
                        Rebuilt(prims0, cs0, mergedMap, src, children, visited + [k], skipped, marks, relinked, prims, cs)
  {
    prims, cs, r := RelinkOne(p1, cs1, mergedMap, src, k);
    RelinkedNext(prims0, cs0, mergedMap, src, children, visited, p1, cs1, prims, cs, k, r.Pass?);
    relinked, marks := relinked0 + [k], marks0 + [|cs|];
    if r.Pass? {
      RebuiltNext(prims0, cs0, mergedMap, src, children, visited, skipped, marks0, relinked0, p1, cs1, prims, cs, k);
    }
  }

  /**
   * One iteration of a loop of fixReferences, on the state `p1`/`cs1` after
   * `visited`: `k` is relinked when it has a pending child merge and no
   * their-side conflict, and passed over otherwise.
   */
  method RelinkStep(prims0: map<PrimId, Prim>, cs0: seq<Conflict>, mergedMap: map<PrimId, PrimId>,
                    src: map<PrimId, Prim>, children: set<PrimId>, visited: seq<PrimId>,
                    ghost skipped0: set<nat>, ghost marks0: seq<nat>, ghost relinked0: seq<PrimId>,
                    p1: map<PrimId, Prim>, cs1: seq<Conflict>, k: PrimId)
    returns (prims: map<PrimId, Prim>, cs: seq<Conflict>, r: Outcome<MergeError>,
             ghost relinked: seq<PrimId>, ghost skipped: set<nat>, ghost marks: seq<nat>)
    requires forall k :: k in mergedMap ==> mergedMap[k] in prims0
    requires k in src && k.kind != Node
    requires Relinked(prims0, cs0, mergedMap, src, children, visited, p1, cs1)
    requires Rebuilt(prims0, cs0, mergedMap, src, children, visited, skipped0, marks0, relinked0, p1, cs1)
    ensures r.Fail? ==> r.error.MissingMergeTarget? && r.error.id !in mergedMap &&
                        Relinked(prims0, cs0, mergedMap, src, children, [], prims, cs)
    ensures r.Pass? ==> Relinked(prims0, cs0, mergedMap, src, children, visited + [k], prims, cs) &&
                        Rebuilt(prims0, cs0, mergedMap, src, children, visited + [k], skipped, marks, relinked, prims, cs)
  {
    if !HasConflictForTheir(cs1, k) && k in children {
      skipped := skipped0;
      prims, cs, r, relinked, marks :=
        RelinkPending(prims0, cs0, mergedMap, src, children, visited, skipped0, marks0, relinked0, p1, cs1, k);
    } else {
      prims, cs, r := p1, cs1, Pass;
      RelinkedSkip(prims0, cs0, mergedMap, src, children, visited, prims, cs, k);
      RebuiltSkip(prims0, cs0, mergedMap, src, children, visited, skipped0, marks0, relinked0, prims, cs, k);
      relinked, skipped, marks := relinked0, skipped0 + {|visited|}, marks0 + [|cs|];
    }
  }

  /**
   * A loop of fixReferences over source ways and relations `items`: each
   * one with a pending child merge and no their-side conflict gets its node
   * list (way) or member list (relation) merged. `relinked` are those, in
   * order; `skipped` are the indices of the others.
   */
  method RelinkEach(prims0: map<PrimId, Prim>, cs0: seq<Conflict>, mergedMap: map<PrimId, PrimId>,
                    src: map<PrimId, Prim>, items: seq<PrimId>, children: set<PrimId>)
    returns (prims: map<PrimId, Prim>, cs: seq<Conflict>, r: Outcome<MergeError>,
             ghost relinked: seq<PrimId>, ghost skipped: set<nat>, ghost marks: seq<nat>)
    requires forall k :: k in mergedMap ==> mergedMap[k] in prims0
    requires forall k :: k in items ==> k in src && k.kind != Node
    ensures |cs0| <= |cs| && cs[..|cs0|] == cs0
    ensures OnlyRelinks(prims0, prims, cs)
    ensures RepairsOnly(prims0, cs0, cs) && UndeletedUpToLinks(prims0, prims, cs, |cs0|)
    ensures r.Fail? ==> r.error.MissingMergeTarget? && r.error.id !in mergedMap
    ensures r.Pass? ==> forall k :: k in items ==> ChildListsFixed(prims0, cs0, prims, cs, mergedMap, src, children, k)
    ensures r.Pass? ==> Rebuilt(prims0, cs0, mergedMap, src, children, items, skipped, marks, relinked, prims, cs)
    ensures forall j :: |cs0| <= j < |cs| ==> ReferenceConflict(cs[j], mergedMap)
  {
    prims, cs := prims0, cs0;
    relinked, skipped, marks := [], {}, [|cs0|];
    NothingRepaired(prims0, cs0, mergedMap, []);
    UndeletedIsUpToLinks(prims0, prims0, cs0, |cs0|, PrimId(Node, 0), prims0);
    UndeletesAreRelinks(prims0, prims0, cs0);
    var i := 0;
    while i < |items|
      invariant 0 <= i <= |items|
      invariant Relinked(prims0, cs0, mergedMap, src, children, items[..i], prims, cs)
      invariant Rebuilt(prims0, cs0, mergedMap, src, children, items[..i], skipped, marks, relinked, prims, cs)
    {
      assert items[..i + 1] == items[..i] + [items[i]];
      prims, cs, r, relinked, skipped, marks :=
        RelinkStep(prims0, cs0, mergedMap, src, children, items[..i], skipped, marks, relinked, prims, cs, items[i]);
      if r.Fail? {
        return;
      }
      i := i + 1;
    }
    assert i == |items| && items[..i] == items;
    r := Pass;
  }

  /** The visiting order of the three loops of merge(): the source nodes, then the ways, then the relations. */
  function MergeOrder(src: DataSet): (r: seq<PrimId>)
    ensures forall k :: k in r <==> k in src.order
  {
    OfKind(src.order, Node) + OfKind(src.order, Way) + OfKind(src.order, Relation)
  }

  /** The visiting order of the two loops of fixReferences: the source ways, then the source relations. */
  function ChildOrder(src: DataSet): (r: seq<PrimId>)
    ensures forall k :: k in r <==> k in src.order && k.kind != Node
  {
    OfKind(src.order, Way) + OfKind(src.order, Relation)
  }

  /**
   * Both loops of fixReferences. They share the guard, and each stops the
   * merge at its first failure, so together they are one loop over
   * `ChildOrder(src)`.
   */
  method RelinkAll(prims0: map<PrimId, Prim>, cs0: seq<Conflict>, mergedMap: map<PrimId, PrimId>,
                   src: DataSet, children: set<PrimId>)
    returns (prims: map<PrimId, Prim>, cs: seq<Conflict>, r: Outcome<MergeError>,
             ghost relinked: seq<PrimId>, ghost skipped: set<nat>, ghost marks: seq<nat>)
    requires forall k :: k in mergedMap ==> mergedMap[k] in prims0
    requires src.Valid()
    ensures |cs0| <= |cs| && cs[..|cs0|] == cs0
    ensures OnlyRelinks(prims0, prims, cs)
    ensures RepairsOnly(prims0, cs0, cs) && UndeletedUpToLinks(prims0, prims, cs, |cs0|)
    ensures r.Fail? ==> r.error.MissingMergeTarget? && r.error.id !in mergedMap
    ensures r.Pass? ==> forall k :: k in src.prims && k.kind != Node ==>
              ChildListsFixed(prims0, cs0, prims, cs, mergedMap, src.prims, children, k)
    ensures r.Pass? ==>
              Rebuilt(prims0, cs0, mergedMap, src.prims, children, ChildOrder(src), skipped, marks, relinked, prims, cs)
    ensures forall j :: |cs0| <= j < |cs| ==> ReferenceConflict(cs[j], mergedMap)
  {
    prims, cs, r, relinked, skipped, marks := RelinkEach(prims0, cs0, mergedMap, src.prims, ChildOrder(src), children);
  }

  /**
   * The lists after both loops of fixReferences from `prims0`/`cs0` to
   * `prims`/`cs`: the child lists of every source way and relation are
   * fixed, and every node and member list is rebuilt from `relinked`.
   */
  ghost predicate ChildListsMerged(prims0: map<PrimId, Prim>, cs0: seq<Conflict>, prims: map<PrimId, Prim>,
                                   cs: seq<Conflict>, mergedMap: map<PrimId, PrimId>, src: DataSet,
                                   children: set<PrimId>, relinked: seq<PrimId>, skipped: set<nat>, marks: seq<nat>) {
    && (forall k :: k in src.prims && k.kind != Node ==>
          ChildListsFixed(prims0, cs0, prims, cs, mergedMap, src.prims, children, k))
    && Rebuilt(prims0, cs0, mergedMap, src.prims, children, ChildOrder(src), skipped, marks, relinked, prims, cs)
  }

  /**
   * The target `ds`, the conflicts `cs` and the deletion queue `queue` grew
   * from `ds0`/`cs0`/`queue0` by merging the source primitives `items`:
   * no target primitive is lost, the listing order, the conflicts and the
   * queue are extended at their ends only, and every added conflict is a
   * same-identity conflict and every added queue entry an identity of
   * `items`.
   */
  ghost predicate MergedFrom(ds0: DataSet, cs0: seq<Conflict>, queue0: seq<PrimId>,
                             ds: DataSet, cs: seq<Conflict>, queue: seq<PrimId>, items: seq<PrimId>) {
    && ds0.prims.Keys <= ds.prims.Keys
    && |ds0.order| <= |ds.order| && ds.order[..|ds0.order|] == ds0.order
    && |cs0| <= |cs| && cs[..|cs0|] == cs0
    && (forall j :: |cs0| <= j < |cs| ==> cs[j].my in items && cs[j].their == cs[j].my)
    && |queue0| <= |queue| && queue[..|queue0|] == queue0
    && (forall j :: |queue0| <= j < |queue| ==> queue[j] in items)
  }

  /** Merging `items1`, then `items2`, is merging `items1 + items2`. */
  lemma MergedFromTrans(ds0: DataSet, cs0: seq<Conflict>, queue0: seq<PrimId>,
                        ds1: DataSet, cs1: seq<Conflict>, queue1: seq<PrimId>,
                        ds: DataSet, cs: seq<Conflict>, queue: seq<PrimId>, items1: seq<PrimId>, items2: seq<PrimId>)
    requires MergedFrom(ds0, cs0, queue0, ds1, cs1, queue1, items1)
    requires MergedFrom(ds1, cs1, queue1, ds, cs, queue, items2)
    ensures MergedFrom(ds0, cs0, queue0, ds, cs, queue, items1 + items2)
  {
    assert ds.order[..|ds0.order|] == ds1.order[..|ds0.order|];
    assert cs[..|cs0|] == cs1[..|cs0|];
    assert queue[..|queue0|] == queue1[..|queue0|];
    forall j | |cs0| <= j < |cs1|
      ensures cs[j] == cs1[j]
    {
      assert cs[..|cs1|][j] == cs1[j];
    }
    forall j | |queue0| <= j < |queue1|
      ensures queue[j] == queue1[j]
    {
      assert queue[..|queue1|][j] == queue1[j];
    }
  }

  class DataSetMerger {
    /** The target dataset, merged onto in place. */
    var target: DataSet
    /** The source dataset; `None` stands for a null source, which makes merge() do nothing. */
    const source: Option<DataSet>
    /** The conflicts created during merging. */
    var conflicts: seq<Conflict>
    /** Source identity to the identity of the target primitive it was merged onto or cloned as. */
    var mergedMap: map<PrimId, PrimId>
    /** Source identities whose node or member lists still have to be fixed. */
    var objectsWithChildrenToMerge: set<PrimId>
    /** Target primitives queued for deletion, in iteration order. */
    var objectsToDelete: seq<PrimId>
    /** The next id handed out to a new primitive (the global counter of new ids). */
    var nextNewId: int
    /** OsmPrimitive.hasEqualSemanticAttributes(other), as target.semEqual(source). */
    const semEqual: (Prim, Prim) -> bool
    /** OsmPrimitive.mergeFrom(other): the primitive `mine` after copying `other`'s attributes. */
    const mergeFrom: (Prim, Prim) -> Prim
    /** The source primitives handed to mergePrimitive, in call order. */
    ghost var trace: seq<PrimId>

    ghost predicate Valid()
      reads this
    {
      target.Valid() &&
      (source.Some? ==> source.value.Valid()) &&
      nextNewId < 0 &&
      (forall k :: k in target.prims ==> nextNewId < k.id) &&
      (forall k :: k in mergedMap ==> mergedMap[k] in target.prims && mergedMap[k].kind == k.kind) &&
      (forall k :: k in objectsToDelete ==> k in target.prims) &&
      Distinct(objectsToDelete)
    }

    constructor (targetDataSet: DataSet, sourceDataSet: Option<DataSet>, newIdCounter: int,
                 semEqual: (Prim, Prim) -> bool, mergeFrom: (Prim, Prim) -> Prim)
      requires targetDataSet.Valid() && (sourceDataSet.Some? ==> sourceDataSet.value.Valid())
      requires newIdCounter < 0 && forall k :: k in targetDataSet.prims ==> newIdCounter < k.id
      ensures Valid()
      ensures target == targetDataSet && source == sourceDataSet && nextNewId == newIdCounter
      ensures this.semEqual == semEqual && this.mergeFrom == mergeFrom
      ensures conflicts == [] && mergedMap == map[] && objectsWithChildrenToMerge == {} && objectsToDelete == []
      ensures trace == []
    {
      target := targetDataSet;
      source := sourceDataSet;
      nextNewId := newIdCounter;
      this.semEqual := semEqual;
      this.mergeFrom := mergeFrom;
      conflicts := [];
      mergedMap := map[];
      objectsWithChildrenToMerge := {};
      objectsToDelete := [];
      trace := [];
    }

    /** A new, deleted source primitive is ignored by the merge. */
    ghost predicate Skipped(s: PrimId)
      reads this
      requires source.Some? && s in source.value.prims
    {
      s.IsNew() && source.value.prims[s].deleted
    }

    /** Some referrer of the source primitive `s` is absent from the target dataset. */
    predicate ReferrerMissing(s: PrimId)
      reads this
      requires source.Some?
    {
      exists r :: r in Referrers(source.value, s) && r !in target.prims
    }

    /** The ladder's disposition of source primitive `s` onto the target primitive of the same identity. */
    ghost function DecisionFor(s: PrimId): Disposition
      reads this
      requires source.Some? && s in source.value.prims && s in target.prims
    {
      var t := target.prims[s];
      var src := source.value.prims[s];
      MergeByIdDecision(t, src, semEqual(t, src), ReferrerMissing(s))
    }

    /** `k` is a target candidate for the new source primitive `src` of kind `kind`. */
    predicate IsNewMatch(k: PrimId, src: Prim, kind: Kind)
      reads this
    {
      k in target.prims && k.kind == kind && k.IsNew() && !target.prims[k].deleted &&
      semEqual(target.prims[k], src)
    }

    /** The scan of mergePrimitive over the target primitives of the same kind for a semantic match. */
    method FindNewMatch(src: Prim, kind: Kind) returns (m: Option<PrimId>)
      requires Valid()
      ensures m.Some? ==> exists i :: 0 <= i < |target.order| && target.order[i] == m.value &&
                            IsNewMatch(m.value, src, kind) &&
                            forall j :: 0 <= j < i ==> !IsNewMatch(target.order[j], src, kind)
      ensures m.None? ==> forall k :: k in target.prims ==> !IsNewMatch(k, src, kind)
    {
      var i := 0;
      while i < |target.order|
        invariant 0 <= i <= |target.order|
        invariant forall j :: 0 <= j < i ==> !IsNewMatch(target.order[j], src, kind)
      {
        var k := target.order[i];
        if k.kind == kind && k.IsNew() && !target.prims[k].deleted && semEqual(target.prims[k], src) {
          return Some(k);
        }
        i := i + 1;
      }
      forall k | k in target.prims ensures !IsNewMatch(k, src, kind) {
        var j :| 0 <= j < |target.order| && target.order[j] == k;
      }
      return None;
    }

    /**
     * mergeById: if a target primitive with the same identity exists, record
     * the mapping and apply the ladder's disposition.
     */
    method MergeById(s: PrimId) returns (found: bool, r: Outcome<MergeError>)
      requires Valid() && source.Some? && s in source.value.prims
      modifies this
      ensures Valid()
      ensures found <==> s in old(target.prims)
      ensures nextNewId == old(nextNewId) && trace == old(trace) && target.order == old(target.order)
      ensures !found ==>
                target == old(target) && mergedMap == old(mergedMap) && conflicts == old(conflicts) &&
                objectsWithChildrenToMerge == old(objectsWithChildrenToMerge) &&
                objectsToDelete == old(objectsToDelete) && r.Pass?
      ensures found ==>
                var t := old(target.prims[s]);
                var src := source.value.prims[s];
                var d := old(DecisionFor(s));
                mergedMap == old(mergedMap)[s := s] &&
                (r.Fail? <==> d == IntegrityProblem) &&
                (r.Fail? ==> r.error == DataIntegrityProblem(s)) &&
                target.prims == old(target.prims)[s := Applied(d, t, src, mergeFrom)] &&
                conflicts == old(conflicts) +
                  (if d == UndeleteWithConflict then [Conflict(s, s, true)]
                   else if d == RecordConflict then [Conflict(s, s, false)]
                   else []) &&
                objectsWithChildrenToMerge ==
                  old(objectsWithChildrenToMerge) + (if d == AdoptSource then {s} else {}) &&
                objectsToDelete ==
                  old(objectsToDelete) + (if d == QueueDeletion && s !in old(objectsToDelete) then [s] else [])
    {
      if s !in target.prims {
        return false, Pass;
      }
      found := true;
      mergedMap := mergedMap[s := s];
      var t := target.prims[s];
      var src := source.value.prims[s];
      var d := MergeByIdDecision(t, src, semEqual(t, src), ReferrerMissing(s));
      r := ApplyDisposition(s, d);
    }

    /** The branch bodies of mergeById's ladder, for the disposition `d` of target primitive `s`. */
    method ApplyDisposition(s: PrimId, d: Disposition) returns (r: Outcome<MergeError>)
      requires Valid() && source.Some? && s in source.value.prims && s in target.prims
      modifies this
      ensures Valid()
      ensures mergedMap == old(mergedMap) && nextNewId == old(nextNewId) && trace == old(trace)
      ensures target.order == old(target.order)
      ensures r.Fail? <==> d == IntegrityProblem
      ensures r.Fail? ==> r.error == DataIntegrityProblem(s)
      ensures target.prims == old(target.prims)[s := Applied(d, old(target.prims[s]), source.value.prims[s], mergeFrom)]
      ensures conflicts == old(conflicts) +
                (if d == UndeleteWithConflict then [Conflict(s, s, true)]
                 else if d == RecordConflict then [Conflict(s, s, false)]
                 else [])
      ensures objectsWithChildrenToMerge == old(objectsWithChildrenToMerge) + (if d == AdoptSource then {s} else {})
      ensures objectsToDelete == old(objectsToDelete) + (if d == QueueDeletion && s !in old(objectsToDelete) then [s] else [])
    {
      var t := target.prims[s];
      var src := source.value.prims[s];
      r := Pass;
      match d {
        case KeepTarget =>
        case AdoptSource =>
          target := target.(prims := target.prims[s := mergeFrom(t, src)]);
          objectsWithChildrenToMerge := objectsWithChildrenToMerge + {s};
        case IntegrityProblem =>
          r := Fail(DataIntegrityProblem(s));
        case UndeleteWithConflict =>
          conflicts := conflicts + [Conflict(s, s, true)];
          target := target.(prims := target.prims[s := t.(deleted := false)]);
        case QueueDeletion =>
          if s !in objectsToDelete {
            objectsToDelete := objectsToDelete + [s];
          }
        case ClearModified =>
          target := target.(prims := target.prims[s := t.(modified := false)]);
        case RecordConflict =>
          conflicts := conflicts + [Conflict(s, s, false)];
      }
    }

    /**
     * mergePrimitive: merge by id, or match a new source primitive with a
     * semantically equal new target primitive, or clone the source into the
     * target dataset.
     */
    method MergePrimitive(s: PrimId) returns (r: Outcome<MergeError>)
      requires Valid() && source.Some? && s in source.value.prims
      modifies this
      ensures Valid()
      ensures trace == old(trace) + [s]
      ensures old(target.prims).Keys <= target.prims.Keys
      ensures |old(target.order)| <= |target.order| && target.order[..|old(target.order)|] == old(target.order)
      ensures forall k :: k in old(mergedMap) ==> k in mergedMap && (k != s ==> mergedMap[k] == old(mergedMap[k]))
      ensures forall k :: k in old(objectsToDelete) ==> k in objectsToDelete
      ensures forall k :: k in objectsToDelete ==> k in old(objectsToDelete) || k == s
      ensures MergedFrom(old(target), old(conflicts), old(objectsToDelete), target, conflicts, objectsToDelete, [s])
      // an error is the ladder's integrity problem
      ensures r.Fail? ==> !s.IsNew() && s in old(target.prims) && old(DecisionFor(s)) == IntegrityProblem
      ensures r.Fail? ==> r.error == DataIntegrityProblem(s)
      // a new deleted source primitive changes nothing
      ensures old(Skipped(s)) ==>
                r.Pass? && target == old(target) && mergedMap == old(mergedMap) && conflicts == old(conflicts) &&
                objectsWithChildrenToMerge == old(objectsWithChildrenToMerge) && nextNewId == old(nextNewId)
      // every other source primitive gets a mapping
      ensures !old(Skipped(s)) ==> s in mergedMap
      // a new source primitive matching a new target primitive: technical attributes copied, nothing added
      ensures s.IsNew() && !old(Skipped(s)) && mergedMap[s] in old(target.prims) ==>
                var k := mergedMap[s];
                var src := source.value.prims[s];
                old(IsNewMatch(k, src, s.kind)) &&
                target.order == old(target.order) && nextNewId == old(nextNewId) &&
                target.prims == old(target.prims)[k := old(target.prims[k]).(
                  visible := src.visible, user := src.user, timestamp := src.timestamp, modified := src.modified)] &&
                conflicts == old(conflicts) &&
                objectsWithChildrenToMerge == old(objectsWithChildrenToMerge) + {s}
      // otherwise a clone: the source id for a real id, a fresh new id for a new primitive
      ensures !old(Skipped(s)) && mergedMap[s] !in old(target.prims) ==>
                var k := mergedMap[s];
                var src := source.value.prims[s];
                (s.IsNew() ==> (forall k' :: k' in old(target.prims) ==> !old(IsNewMatch(k', src, s.kind))) &&
                               k == PrimId(s.kind, old(nextNewId)) && nextNewId == old(nextNewId) - 1) &&
                (!s.IsNew() ==> k == s && nextNewId == old(nextNewId)) &&
                target.prims == old(target.prims)[k := mergeFrom(NewPrimitive(!s.IsNew()), src)] &&
                target.order == old(target.order) + [k] &&
                conflicts == old(conflicts) &&
                objectsWithChildrenToMerge == old(objectsWithChildrenToMerge) + {s}
      // a source primitive with an id found in the target: the ladder decides
      ensures !s.IsNew() && s in old(target.prims) ==>
                mergedMap[s] == s && target.order == old(target.order) && nextNewId == old(nextNewId) &&
                target.prims == old(target.prims)[s := Applied(old(DecisionFor(s)), old(target.prims[s]),
                                                              source.value.prims[s], mergeFrom)]
    {
      if !s.IsNew() {
        r := MergeWithId(s);
      } else {
        r := MergeNew(s);
      }
      trace := trace + [s];
    }

    /** mergePrimitive for a source primitive with a real id: by id, or else as a clone under the same id. */
    method MergeWithId(s: PrimId) returns (r: Outcome<MergeError>)
      requires Valid() && source.Some? && s in source.value.prims && !s.IsNew()
      modifies this
      ensures Valid() && trace == old(trace)
      ensures old(target.prims).Keys <= target.prims.Keys
      ensures |old(target.order)| <= |target.order| && target.order[..|old(target.order)|] == old(target.order)
      ensures mergedMap == old(mergedMap)[s := s]
      ensures forall k :: k in old(objectsToDelete) ==> k in objectsToDelete
      ensures forall k :: k in objectsToDelete ==> k in old(objectsToDelete) || k == s
      ensures |old(objectsToDelete)| <= |objectsToDelete| &&
              objectsToDelete[..|old(objectsToDelete)|] == old(objectsToDelete)
      ensures forall j :: |old(objectsToDelete)| <= j < |objectsToDelete| ==> objectsToDelete[j] == s
      ensures |old(conflicts)| <= |conflicts| && conflicts[..|old(conflicts)|] == old(conflicts)
      ensures forall j :: |old(conflicts)| <= j < |conflicts| ==> conflicts[j].my == s && conflicts[j].their == s
      ensures r.Fail? ==> s in old(target.prims) && old(DecisionFor(s)) == IntegrityProblem && r.error == DataIntegrityProblem(s)
      ensures s in old(target.prims) ==>
                target.order == old(target.order) && nextNewId == old(nextNewId) &&
                target.prims == old(target.prims)[s := Applied(old(DecisionFor(s)), old(target.prims[s]),
                                                              source.value.prims[s], mergeFrom)]
      ensures s !in old(target.prims) ==>
                r.Pass? && nextNewId == old(nextNewId) &&
                target.prims == old(target.prims)[s := mergeFrom(NewPrimitive(true), source.value.prims[s])] &&
                target.order == old(target.order) + [s] &&
                conflicts == old(conflicts) &&
                objectsWithChildrenToMerge == old(objectsWithChildrenToMerge) + {s}
    {
      var found;
      found, r := MergeById(s);
      if !found {
        AddClone(s);
      }
    }

    /**
     * mergePrimitive for a new source primitive: skipped when deleted,
     * otherwise matched semantically or else cloned under a fresh new id.
     */
    method MergeNew(s: PrimId) returns (r: Outcome<MergeError>)
      requires Valid() && source.Some? && s in source.value.prims && s.IsNew()
      modifies this
      ensures Valid() && trace == old(trace) && r.Pass?
      ensures conflicts == old(conflicts)
      ensures old(target.prims).Keys <= target.prims.Keys
      ensures |old(target.order)| <= |target.order| && target.order[..|old(target.order)|] == old(target.order)
      ensures forall k :: k in old(mergedMap) ==> k in mergedMap && (k != s ==> mergedMap[k] == old(mergedMap[k]))
      ensures objectsToDelete == old(objectsToDelete)
      ensures source.value.prims[s].deleted ==>
                target == old(target) && mergedMap == old(mergedMap) && conflicts == old(conflicts) &&
                objectsWithChildrenToMerge == old(objectsWithChildrenToMerge) && nextNewId == old(nextNewId)
      ensures !source.value.prims[s].deleted ==> s in mergedMap
      ensures !source.value.prims[s].deleted && mergedMap[s] in old(target.prims) ==>
                var k := mergedMap[s];
                var src := source.value.prims[s];
                old(IsNewMatch(k, src, s.kind)) &&
                target.order == old(target.order) && nextNewId == old(nextNewId) &&
                target.prims == old(target.prims)[k := old(target.prims[k]).(
                  visible := src.visible, user := src.user, timestamp := src.timestamp, modified := src.modified)] &&
                conflicts == old(conflicts) &&
                objectsWithChildrenToMerge == old(objectsWithChildrenToMerge) + {s}
      ensures !source.value.prims[s].deleted && mergedMap[s] !in old(target.prims) ==>
                var src := source.value.prims[s];
                (forall k' :: k' in old(target.prims) ==> !old(IsNewMatch(k', src, s.kind))) &&
                mergedMap[s] == PrimId(s.kind, old(nextNewId)) && nextNewId == old(nextNewId) - 1 &&
                target.prims == old(target.prims)[mergedMap[s] := mergeFrom(NewPrimitive(false), src)] &&
                target.order == old(target.order) + [mergedMap[s]] &&
                conflicts == old(conflicts) &&
                objectsWithChildrenToMerge == old(objectsWithChildrenToMerge) + {s}
    {
      var src := source.value.prims[s];
      if src.deleted {
        return Pass;
      }
      var m := FindNewMatch(src, s.kind);
      if m.Some? {
        AdoptTechnicalAttributes(s, m.value);
        return Pass;
      }
      AddClone(s);
      r := Pass;
    }

    /** The semantic match of a new source primitive: map it and copy its technical attributes. */
    method AdoptTechnicalAttributes(s: PrimId, k: PrimId)
      requires Valid() && source.Some? && s in source.value.prims && k in target.prims && k.kind == s.kind
      modifies this
      ensures Valid()
      ensures mergedMap == old(mergedMap)[s := k]
      ensures target.order == old(target.order) && nextNewId == old(nextNewId) && trace == old(trace)
      ensures target.prims == old(target.prims)[k := old(target.prims[k]).(
                visible := source.value.prims[s].visible, user := source.value.prims[s].user,
                timestamp := source.value.prims[s].timestamp, modified := source.value.prims[s].modified)]
      ensures conflicts == old(conflicts) && objectsToDelete == old(objectsToDelete)
      ensures objectsWithChildrenToMerge == old(objectsWithChildrenToMerge) + {s}
    {
      var src := source.value.prims[s];
      mergedMap := mergedMap[s := k];
      var p := target.prims[k];
      target := target.(prims := target.prims[k := p.(
        visible := src.visible, user := src.user, timestamp := src.timestamp, modified := src.modified)]);
      objectsWithChildrenToMerge := objectsWithChildrenToMerge + {s};
    }

    /**
     * No target primitive to merge onto: add a clone of the source, keeping
     * the source id, or under a fresh new id when the source is new.
     */
    method AddClone(s: PrimId)
      requires Valid() && source.Some? && s in source.value.prims
      requires !s.IsNew() ==> s !in target.prims
      modifies this
      ensures Valid() && s in mergedMap
      ensures s.IsNew() ==> mergedMap[s] == PrimId(s.kind, old(nextNewId)) && nextNewId == old(nextNewId) - 1
      ensures !s.IsNew() ==> mergedMap[s] == s && nextNewId == old(nextNewId)
      ensures mergedMap == old(mergedMap)[s := mergedMap[s]]
      ensures mergedMap[s] !in old(target.prims)
      ensures target.prims == old(target.prims)[mergedMap[s] := mergeFrom(NewPrimitive(!s.IsNew()), source.value.prims[s])]
      ensures target.order == old(target.order) + [mergedMap[s]]
      ensures conflicts == old(conflicts) && objectsToDelete == old(objectsToDelete) && trace == old(trace)
      ensures objectsWithChildrenToMerge == old(objectsWithChildrenToMerge) + {s}
    {
      var k := if s.IsNew() then PrimId(s.kind, nextNewId) else s;
      if s.IsNew() {
        nextNewId := nextNewId - 1;
      }
      var clone := mergeFrom(NewPrimitive(!s.IsNew()), source.value.prims[s]);
      target := DataSet(target.prims[k := clone], target.order + [k]);
      mergedMap := mergedMap[s := k];
      objectsWithChildrenToMerge := objectsWithChildrenToMerge + {s};
    }

    /** Frame of the reference-repair methods: only the target primitives and the conflicts change. */
    twostate predicate RepairFrame()
      reads this
    {
      mergedMap == old(mergedMap) && objectsWithChildrenToMerge == old(objectsWithChildrenToMerge) &&
      objectsToDelete == old(objectsToDelete) && nextNewId == old(nextNewId) && trace == old(trace) &&
      target.order == old(target.order) &&
      |old(conflicts)| <= |conflicts| && conflicts[..|old(conflicts)|] == old(conflicts)
    }

    /**
     * mergeNodeList: the target of source way `w` gets the merge targets of
     * the source way's nodes as its node list, same length, same order.
     */
    method MergeNodeList(w: PrimId) returns (r: Outcome<MergeError>)
      requires Valid() && source.Some? && w in source.value.prims && w.kind == Way
      modifies this
      ensures Valid() && RepairFrame()
      ensures OnlyRelinks(old(target.prims), target.prims, conflicts)
      ensures r.Pass? <==> w in mergedMap && forall ref :: ref in source.value.prims[w].nodes ==> ref in mergedMap
      ensures r.Fail? ==> r.error.MissingMergeTarget? && r.error.id !in mergedMap &&
                          (r.error.id == w || r.error.id in source.value.prims[w].nodes)
      ensures r.Pass? ==> ChildrenRepaired(target.prims, conflicts, mergedMap, ChildRefs(w, source.value.prims[w]))
      ensures r.Pass? ==> NodesMerged(old(target.prims), target.prims, conflicts, |old(conflicts)|, mergedMap,
                                      mergedMap[w], source.value.prims[w].nodes)
      ensures r.Fail? ==> UndeletedByConflicts(old(target.prims), target.prims, conflicts, |old(conflicts)|)
      ensures forall j :: |old(conflicts)| <= j < |conflicts| ==>
                RepairConflict(conflicts[j], source.value.prims[w].nodes, mergedMap)
      ensures RepairsOnly(old(target.prims), old(conflicts), conflicts)
      ensures r.Pass? ==> RepairsRecorded(old(target.prims), old(conflicts), conflicts, mergedMap,
                                          source.value.prims[w].nodes)
    {
      var prims, cs;
      prims, cs, r := RelinkWay(target.prims, conflicts, mergedMap, w, source.value.prims[w].nodes);
      target := target.(prims := prims);
      conflicts := cs;
    }

    /**
     * mergeRelationMembers: the target of source relation `rel` gets one
     * member per source member, with the same role and the merge target of
     * the source member, in the same order.
     */
    method MergeRelationMembers(rel: PrimId) returns (r: Outcome<MergeError>)
      requires Valid() && source.Some? && rel in source.value.prims && rel.kind == Relation
      modifies this
      ensures Valid() && RepairFrame()
      ensures OnlyRelinks(old(target.prims), target.prims, conflicts)
      ensures r.Pass? <==> rel in mergedMap && forall m :: m in source.value.prims[rel].members ==> m.ref in mergedMap
      ensures r.Fail? ==> r.error.MissingMergeTarget? && r.error.id !in mergedMap &&
                          (r.error.id == rel || r.error.id in MemberRefs(source.value.prims[rel].members))
      ensures r.Pass? ==> ChildrenRepaired(target.prims, conflicts, mergedMap, ChildRefs(rel, source.value.prims[rel]))
      ensures r.Pass? ==> MembersMerged(old(target.prims), target.prims, conflicts, |old(conflicts)|, mergedMap,
                                        mergedMap[rel], source.value.prims[rel].members)
      ensures r.Fail? ==> UndeletedByConflicts(old(target.prims), target.prims, conflicts, |old(conflicts)|)
      ensures forall j :: |old(conflicts)| <= j < |conflicts| ==>
                RepairConflict(conflicts[j], MemberRefs(source.value.prims[rel].members), mergedMap)
      ensures RepairsOnly(old(target.prims), old(conflicts), conflicts)
      ensures r.Pass? ==> RepairsRecorded(old(target.prims), old(conflicts), conflicts, mergedMap,
                                          MemberRefs(source.value.prims[rel].members))
    {
      var prims, cs;
      prims, cs, r := RelinkRelation(target.prims, conflicts, mergedMap, rel, source.value.prims[rel].members);
      target := target.(prims := prims);
      conflicts := cs;
    }

    /**
     * The two loops of fixReferences: the node lists of the source ways,
     * then the member lists of the source relations, in listing order.
     */
    method MergeChildLists()
      returns (r: Outcome<MergeError>, ghost relinked: seq<PrimId>, ghost skipped: set<nat>, ghost marks: seq<nat>)
      requires Valid() && source.Some?
      modifies this
      ensures Valid() && RepairFrame()
      ensures OnlyRelinks(old(target.prims), target.prims, conflicts)
      ensures r.Fail? ==> r.error.MissingMergeTarget? && r.error.id !in mergedMap
      ensures RepairsOnly(old(target.prims), old(conflicts), conflicts)
      ensures UndeletedUpToLinks(old(target.prims), target.prims, conflicts, |old(conflicts)|)
      ensures r.Pass? ==> ChildListsMerged(old(target.prims), old(conflicts), target.prims, conflicts, mergedMap,
                                           source.value, objectsWithChildrenToMerge, relinked, skipped, marks)
      ensures forall j :: |old(conflicts)| <= j < |conflicts| ==> ReferenceConflict(conflicts[j], mergedMap)
    {
      var prims, cs;
      prims, cs, r, relinked, skipped, marks :=
        RelinkAll(target.prims, conflicts, mergedMap, source.value, objectsWithChildrenToMerge);
      target, conflicts := target.(prims := prims), cs;
    }

    /**
     * deleteMarkedObjects: every queued primitive ends up deleted, refused
     * with a conflict, or — when it is only referred to from within the queue
     * once no pass changes anything — detached and deleted; the queue keeps
     * those last ones.
     */
    method DeleteMarkedObjects() returns (r: Outcome<MergeError>, ghost refused: seq<PrimId>,
                                          ghost deleted: set<PrimId>, ghost stable: DataSet)
      requires Valid() && source.Some?
      modifies this
      ensures Valid()
      ensures mergedMap == old(mergedMap) && objectsWithChildrenToMerge == old(objectsWithChildrenToMerge)
      ensures nextNewId == old(nextNewId) && trace == old(trace) && target.order == old(target.order)
      ensures forall k :: k in objectsToDelete ==> k in old(objectsToDelete)
      ensures |old(conflicts)| <= |conflicts| && conflicts[..|old(conflicts)|] == old(conflicts)
      ensures r.Fail? ==> r.error.MissingInSource? && r.error.id in old(objectsToDelete) &&
                          r.error.id !in source.value.prims
      ensures r.Pass? ==> DeletionDone(old(target), target, old(conflicts), conflicts, old(objectsToDelete),
                                       objectsToDelete, source.value.prims, mergeFrom, refused, deleted, stable)
    {
      var ds, cs, left, r1;
      ds, cs, left, r1, refused, deleted, stable :=
        DeleteQueued(target, conflicts, objectsToDelete, source.value.prims, mergeFrom);
      target, conflicts := ds, cs;
      if r1.Fail? {
        return Fail(MissingInSource(r1.error)), refused, deleted, stable;
      }
      objectsToDelete := left;
      r := Pass;
    }

    /**
     * fixReferences: merge the child lists, then delete the queued
     * primitives. `mid`/`midConflicts` is the state between the two: the
     * child lists are fixed there, and the deletion runs from there.
     */
    method FixReferences() returns (r: Outcome<MergeError>, ghost mid: DataSet, ghost midConflicts: seq<Conflict>,
                                    ghost refused: seq<PrimId>, ghost deleted: set<PrimId>, ghost stable: DataSet,
                                    ghost relinked: seq<PrimId>, ghost skipped: set<nat>, ghost marks: seq<nat>)
      requires Valid() && source.Some?
      modifies this
      ensures Valid()
      ensures mergedMap == old(mergedMap) && objectsWithChildrenToMerge == old(objectsWithChildrenToMerge)
      ensures nextNewId == old(nextNewId) && trace == old(trace) && target.order == old(target.order)
      ensures r.Fail? ==> (r.error.MissingMergeTarget? && r.error.id !in mergedMap) ||
                          (r.error.MissingInSource? && r.error.id in old(objectsToDelete) &&
                           r.error.id !in source.value.prims)
      ensures forall k :: k in objectsToDelete ==> k in old(objectsToDelete)
      ensures |old(conflicts)| <= |conflicts| && conflicts[..|old(conflicts)|] == old(conflicts)
      ensures RepairsOnly(old(target.prims), old(conflicts), midConflicts)
      ensures UndeletedUpToLinks(old(target.prims), mid.prims, midConflicts, |old(conflicts)|)
      ensures r.Pass? ==> ChildListsMerged(old(target.prims), old(conflicts), mid.prims, midConflicts, mergedMap,
                                           source.value, objectsWithChildrenToMerge, relinked, skipped, marks)
      ensures r.Pass? ==> DeletionDone(mid, target, midConflicts, conflicts, old(objectsToDelete), objectsToDelete,
                                       source.value.prims, mergeFrom, refused, deleted, stable)
    {
      refused, deleted, stable := [], {}, target;
      ghost var prims0, cs0 := target.prims, conflicts;
      r, relinked, skipped, marks := MergeChildLists();
      mid, midConflicts := target, conflicts;
      if r.Fail? {
        return;
      }
      ghost var queue, mm, src, ch := objectsToDelete, mergedMap, source.value, objectsWithChildrenToMerge;
      assert queue == old(objectsToDelete);
      assert ChildListsMerged(prims0, cs0, mid.prims, midConflicts, mm, src, ch, relinked, skipped, marks);
      r, refused, deleted, stable := DeleteMarkedObjects();
      assert conflicts[..|old(conflicts)|] == midConflicts[..|old(conflicts)|];
    }

    /** One loop of merge(): mergePrimitive on each of `items`, in order, until one fails. */
    method MergeEach(items: seq<PrimId>) returns (r: Outcome<MergeError>)
      requires Valid() && source.Some? && forall s :: s in items ==> s in source.value.prims
      modifies this
      ensures Valid()
      ensures r.Pass? ==> trace == old(trace) + items
      ensures r.Fail? ==> r.error.DataIntegrityProblem? && r.error.id in items
      ensures forall k :: k in old(mergedMap) ==> k in mergedMap
      ensures r.Pass? ==> forall s :: s in items && !Skipped(s) ==> s in mergedMap
      ensures MergedFrom(old(target), old(conflicts), old(objectsToDelete), target, conflicts, objectsToDelete, items)
    {
      var i := 0;
      while i < |items|
        invariant 0 <= i <= |items|
        invariant Valid()
        invariant trace == old(trace) + items[..i]
        invariant forall k :: k in old(mergedMap) ==> k in mergedMap
        invariant forall s :: s in items[..i] && !Skipped(s) ==> s in mergedMap
        invariant MergedFrom(old(target), old(conflicts), old(objectsToDelete), target, conflicts, objectsToDelete,
                             items[..i])
      {
        assert items[..i + 1] == items[..i] + [items[i]];
        ghost var ds1, cs1, queue1 := target, conflicts, objectsToDelete;
        r := MergePrimitive(items[i]);
        MergedFromTrans(old(target), old(conflicts), old(objectsToDelete), ds1, cs1, queue1,
                        target, conflicts, objectsToDelete, items[..i], [items[i]]);
        if r.Fail? {
          return;
        }
        i := i + 1;
      }
      assert items[..i] == items;
      r := Pass;
    }

    /**
     * merge: nodes, then ways, then relations of the source dataset, in
     * listing order, then the references are fixed; a null source changes
     * nothing. The three loops share their body and each stops the merge at
     * its first failure, so together they are one loop over `MergeOrder`. `merged`/`mergedConflicts`/`queued` is the state after the
     * three loops, the other ghost results are those of FixReferences.
     */
    method Merge() returns (r: Outcome<MergeError>, ghost merged: DataSet, ghost mergedConflicts: seq<Conflict>,
                            ghost queued: seq<PrimId>, ghost mid: DataSet, ghost midConflicts: seq<Conflict>,
                            ghost refused: seq<PrimId>, ghost deleted: set<PrimId>, ghost stable: DataSet,
                            ghost relinked: seq<PrimId>, ghost skipped: set<nat>, ghost marks: seq<nat>)
      requires Valid()
      modifies this
      ensures Valid()
      ensures source.None? ==> r.Pass? && unchanged(this)
      ensures source.Some? && r.Pass? ==> trace == old(trace) + MergeOrder(source.value)
      ensures source.Some? && r.Pass? ==> forall s :: s in source.value.prims && !Skipped(s) ==> s in mergedMap
      ensures forall k :: k in old(mergedMap) ==> k in mergedMap
      ensures source.Some? && r.Pass? ==>
                && MergedFrom(old(target), old(conflicts), old(objectsToDelete),
                              merged, mergedConflicts, queued, MergeOrder(source.value))
                && RepairsOnly(merged.prims, mergedConflicts, midConflicts)
                && UndeletedUpToLinks(merged.prims, mid.prims, midConflicts, |mergedConflicts|)
                && ChildListsMerged(merged.prims, mergedConflicts, mid.prims, midConflicts, mergedMap,
                                    source.value, objectsWithChildrenToMerge, relinked, skipped, marks)
                && DeletionDone(mid, target, midConflicts, conflicts, queued, objectsToDelete,
                                source.value.prims, mergeFrom, refused, deleted, stable)
    {
      merged, mergedConflicts, queued := target, conflicts, objectsToDelete;
      mid, midConflicts, refused, deleted, stable := target, conflicts, [], {}, target;
      relinked, skipped, marks := [], {}, [];
      if source.None? {
        return Pass, merged, mergedConflicts, queued, mid, midConflicts, refused, deleted, stable, relinked, skipped, marks;
      }
      r := MergeEach(MergeOrder(source.value));
      if r.Fail? {
        return;
      }
      merged, mergedConflicts, queued := target, conflicts, objectsToDelete;
      r, mid, midConflicts, refused, deleted, stable, relinked, skipped, marks := FixReferences();
    }
  }
}
