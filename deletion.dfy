/**
 * The third pass of DataSetMerger (deleteMarkedObjects): target primitives
 * queued for deletion are deleted once nothing refers to them any more,
 * refused with a conflict when a primitive that stays refers to them, and
 * whatever is left when a whole pass changes nothing — primitives that only
 * refer to each other — is detached and deleted together.
 */
module MarkedDeletion {
  import opened Wrappers
  import opened Osm
  import opened Conflicts
  import opened Text

  predicate Distinct<T(==)>(s: seq<T>) {
    forall i, j :: 0 <= i < j < |s| ==> s[i] != s[j]
  }

  /** Joining two sequences without repetitions and without common elements repeats nothing. */
  lemma DistinctAppend<T>(a: seq<T>, b: seq<T>)
    requires Distinct(a) && Distinct(b) && forall x :: x in a ==> x !in b
    ensures Distinct(a + b)
  {
    forall i, j | 0 <= i < j < |a + b|
      ensures (a + b)[i] != (a + b)[j]
    {
      if i < |a| && |a| <= j {
        assert (a + b)[i] in a && (a + b)[j] == b[j - |a|];
      }
    }
  }

  /** In a sequence without repetitions, no element occurs before its own position. */
  lemma DistinctPrefix<T>(s: seq<T>, i: nat)
    requires Distinct(s) && i < |s|
    ensures s[i] !in s[..i]
  {
    assert forall j :: 0 <= j < i ==> s[..i][j] != s[i];
  }

  /** A queued primitive deleted by the merge: marked deleted, then merged from its source primitive. */
  function Finalized(p: Prim, s: Prim, mergeFrom: (Prim, Prim) -> Prim): Prim {
    mergeFrom(p.(deleted := true), s)
  }

  /** What Java's setNodes(null) / setMembers(null) leaves of a primitive stored under `k`. */
  function ClearStructure(k: PrimId, p: Prim): (q: Prim)
    ensures k.kind == Way ==> q == p.(nodes := [])
    ensures k.kind == Relation ==> q == p.(members := [])
    ensures k.kind == Node ==> q == p
  {
    match k.kind
    case Node => p
    case Way => p.(nodes := [])
    case Relation => p.(members := [])
  }

  /** The conflicts conflicts.add(target, source) records for refused deletions, in refusal order. */
  function RefusalConflicts(ks: seq<PrimId>): seq<Conflict> {
    seq(|ks|, i requires 0 <= i < |ks| => Conflict(ks[i], ks[i], false))
  }

  lemma RefusalConflictsAppend(a: seq<PrimId>, b: seq<PrimId>)
    ensures RefusalConflicts(a + b) == RefusalConflicts(a) + RefusalConflicts(b)
  {
    assert forall i :: 0 <= i < |a + b| ==> RefusalConflicts(a + b)[i] == (RefusalConflicts(a) + RefusalConflicts(b))[i];
  }

  /** Every primitive of `ks` has a referrer, and every referrer of it is in `pool`. */
  ghost predicate ReferredWithin(ds: DataSet, ks: seq<PrimId>, pool: seq<PrimId>) {
    forall k :: k in ks ==> Referrers(ds, k) != {} && forall x :: x in Referrers(ds, k) ==> x in pool
  }

  /** Every referrer of every primitive of `ks` is itself in `ks`, and each has one. */
  ghost predicate ReferredOnlyAmong(ds: DataSet, ks: seq<PrimId>) {
    ReferredWithin(ds, ks, ks)
  }

  /** One more primitive referred to only from within `pool`. */
  lemma ReferredWithinAppend(ds: DataSet, ks: seq<PrimId>, k: PrimId, pool: seq<PrimId>)
    requires ReferredWithin(ds, ks, pool)
    requires Referrers(ds, k) != {} && forall x :: x in Referrers(ds, k) ==> x in pool
    ensures ReferredWithin(ds, ks + [k], pool)
  {
    forall y | y in ks + [k]
      ensures y in ks || y == k
    {
    }
  }

  /**
   * The inner search of deleteMarkedObjects over getReferrers(): whether
   * some referrer of `k` is not (or no longer) queued for deletion.
   */
  method HasReferrerOutside(ds: DataSet, k: PrimId, live: seq<PrimId>) returns (found: bool)
    ensures found <==> exists x :: x in Referrers(ds, k) && x !in live
  {
    var rest := Referrers(ds, k);
    while rest != {}
      invariant rest <= Referrers(ds, k)
      invariant forall x :: x in Referrers(ds, k) && x !in rest ==> x in live
      decreases |rest|
    {
      var x :| x in rest;
      if x !in live {
        return true;
      }
      rest := rest - {x};
    }
    return false;
  }

  /** What one visit of a queued primitive does to it. */
  datatype StepOutcome = Deleted | Refused | Kept

  /**
   * One visit of queued primitive `k` while `live` is queued: deleted when
   * nothing refers to it, refused when something outside `live` does, kept
   * otherwise.
   */
  method DeletionStep(ds: DataSet, k: PrimId, live: seq<PrimId>, sk: Prim, mergeFrom: (Prim, Prim) -> Prim)
    returns (ds': DataSet, o: StepOutcome)
    requires k in ds.prims
    ensures o == Rule(ds, k, live)
    ensures o == Deleted <==> Referrers(ds, k) == {}
    ensures o == Refused <==> Referrers(ds, k) != {} && exists x :: x in Referrers(ds, k) && x !in live
    ensures o == Kept ==> forall x :: x in Referrers(ds, k) ==> x in live
    ensures o == Deleted ==> ds' == ds.(prims := ds.prims[k := Finalized(ds.prims[k], sk, mergeFrom)])
    ensures o != Deleted ==> ds' == ds
  {
    if Referrers(ds, k) == {} {
      return ds.(prims := ds.prims[k := Finalized(ds.prims[k], sk, mergeFrom)]), Deleted;
    }
    var outside := HasReferrerOutside(ds, k, live);
    return ds, if outside then Refused else Kept;
  }

  /**
   * The state of deleteMarkedObjects within a pass: the target dataset, the
   * queued primitives visited and kept so far, and those refused and deleted.
   */
  datatype Sweep = Sweep(ds: DataSet, kept: seq<PrimId>, refused: seq<PrimId>, deleted: set<PrimId>)

  /**
   * The rule deleteMarkedObjects applies to queued primitive `k` while `live`
   * is queued: delete it when nothing refers to it, refuse it when a
   * referrer is not queued, keep it otherwise.
   */
  ghost function Rule(ds: DataSet, k: PrimId, live: seq<PrimId>): (o: StepOutcome)
    ensures o == Deleted <==> Referrers(ds, k) == {}
    ensures o == Refused <==> Referrers(ds, k) != {} && exists x :: x in Referrers(ds, k) && x !in live
  {
    if Referrers(ds, k) == {} then Deleted
    else if exists x :: x in Referrers(ds, k) && x !in live then Refused
    else Kept
  }

  /** The bookkeeping of outcome `o` for the visited primitive `k`. */
  function Apply(st: Sweep, k: PrimId, o: StepOutcome, src: map<PrimId, Prim>,
                 mergeFrom: (Prim, Prim) -> Prim): Sweep
  {
    match o
    case Deleted =>
      var prims := st.ds.prims;
      st.(ds := st.ds.(prims := if k in prims && k in src then prims[k := Finalized(prims[k], src[k], mergeFrom)] else prims),
          deleted := st.deleted + {k})
    case Refused => st.(refused := st.refused + [k])
    case Kept => st.(kept := st.kept + [k])
  }

  /**
   * The visit of `pending[j]` in state `st`, the queue then standing at the
   * kept primitives and those from `j` on.
   */
  ghost function Visit(st: Sweep, pending: seq<PrimId>, j: nat, src: map<PrimId, Prim>,
                       mergeFrom: (Prim, Prim) -> Prim): Sweep
    requires j < |pending|
  {
    var k := pending[j];
    Apply(st, k, Rule(st.ds, k, st.kept + pending[j..]), src, mergeFrom)
  }

  /** The state of a pass over `pending`, starting from `ds`, after its first `i` visits. */
  ghost function PassUpTo(ds: DataSet, pending: seq<PrimId>, i: nat, src: map<PrimId, Prim>,
                          mergeFrom: (Prim, Prim) -> Prim): (r: Sweep)
    requires i <= |pending|
    decreases i
  {
    if i == 0 then Sweep(ds, [], [], {})
    else Visit(PassUpTo(ds, pending, i - 1, src, mergeFrom), pending, i - 1, src, mergeFrom)
  }

  /** A pass keeps at most the primitives it visited, and only queued ones. */
  lemma {:induction false} PassKeepsWithin(ds: DataSet, pending: seq<PrimId>, i: nat, src: map<PrimId, Prim>,
                                           mergeFrom: (Prim, Prim) -> Prim)
    requires i <= |pending|
    ensures var r := PassUpTo(ds, pending, i, src, mergeFrom);
            |r.kept| <= i && forall k :: k in r.kept ==> k in pending
  {
    if i > 0 {
      PassKeepsWithin(ds, pending, i - 1, src, mergeFrom);
    }
  }

  /**
   * The do/while loop of deleteMarkedObjects from `ds` with the queue `left`:
   * whole passes until one removes nothing, accumulating what is refused and
   * deleted on top of `refused` and `deleted`.
   */
  ghost function Stabilize(ds: DataSet, left: seq<PrimId>, refused: seq<PrimId>, deleted: set<PrimId>,
                           src: map<PrimId, Prim>, mergeFrom: (Prim, Prim) -> Prim): Sweep
    decreases |left|
  {
    var p := PassUpTo(ds, left, |left|, src, mergeFrom);
    PassKeepsWithin(ds, left, |left|, src, mergeFrom);
    if |p.kept| < |left| then Stabilize(p.ds, p.kept, refused + p.refused, deleted + p.deleted, src, mergeFrom)
    else Sweep(ds, left, refused, deleted)
  }

  /** One more visit of a pass. */
  lemma PassAdvance(ds: DataSet, pending: seq<PrimId>, i: nat, src: map<PrimId, Prim>,
                    mergeFrom: (Prim, Prim) -> Prim)
    requires i < |pending|
    ensures PassUpTo(ds, pending, i + 1, src, mergeFrom) ==
              Visit(PassUpTo(ds, pending, i, src, mergeFrom), pending, i, src, mergeFrom)
  {
  }

  /** A visit of a pass that deletes `pending[i]`. */
  lemma SweepDeleted(ds0: DataSet, pending: seq<PrimId>, i: nat, src: map<PrimId, Prim>,
                     mergeFrom: (Prim, Prim) -> Prim, ds: DataSet, kept: seq<PrimId>, refused: seq<PrimId>,
                     deleted: set<PrimId>)
    requires i < |pending| && PassUpTo(ds0, pending, i, src, mergeFrom) == Sweep(ds, kept, refused, deleted)
    requires pending[i] in ds.prims && pending[i] in src
    requires Rule(ds, pending[i], kept + pending[i..]) == Deleted
    ensures var k := pending[i];
            PassUpTo(ds0, pending, i + 1, src, mergeFrom) ==
              Sweep(ds.(prims := ds.prims[k := Finalized(ds.prims[k], src[k], mergeFrom)]), kept, refused, deleted + {k})
  {
  }

  /** A visit of a pass that refuses `pending[i]`. */
  lemma SweepRefused(ds0: DataSet, pending: seq<PrimId>, i: nat, src: map<PrimId, Prim>,
                     mergeFrom: (Prim, Prim) -> Prim, ds: DataSet, kept: seq<PrimId>, refused: seq<PrimId>,
                     deleted: set<PrimId>)
    requires i < |pending| && PassUpTo(ds0, pending, i, src, mergeFrom) == Sweep(ds, kept, refused, deleted)
    requires Rule(ds, pending[i], kept + pending[i..]) == Refused
    ensures PassUpTo(ds0, pending, i + 1, src, mergeFrom) == Sweep(ds, kept, refused + [pending[i]], deleted)
  {
  }

  /** A visit of a pass that keeps `pending[i]`. */
  lemma SweepKept(ds0: DataSet, pending: seq<PrimId>, i: nat, src: map<PrimId, Prim>,
                  mergeFrom: (Prim, Prim) -> Prim, ds: DataSet, kept: seq<PrimId>, refused: seq<PrimId>,
                  deleted: set<PrimId>)
    requires i < |pending| && PassUpTo(ds0, pending, i, src, mergeFrom) == Sweep(ds, kept, refused, deleted)
    requires Rule(ds, pending[i], kept + pending[i..]) == Kept
    ensures PassUpTo(ds0, pending, i + 1, src, mergeFrom) == Sweep(ds, kept + [pending[i]], refused, deleted)
  {
  }

  /** Only primitives a pass has visited are kept, refused or deleted by it. */
  lemma {:induction false} PassVisitedOnly(ds: DataSet, pending: seq<PrimId>, i: nat, src: map<PrimId, Prim>,
                                           mergeFrom: (Prim, Prim) -> Prim, k: PrimId)
    requires i <= |pending|
    requires k !in pending[..i]
    ensures var r := PassUpTo(ds, pending, i, src, mergeFrom);
            k !in r.kept && k !in r.refused && k !in r.deleted
  {
    if i > 0 {
      assert pending[..i] == pending[..i - 1] + [pending[i - 1]];
      PassVisitedOnly(ds, pending, i - 1, src, mergeFrom, k);
    }
  }

  /**
   * The verdict in `r` on `pending[j]`, visited in state `at`: the outcome
   * of the rule on it, with the queue standing then.
   */
  ghost predicate Verdict(at: Sweep, pending: seq<PrimId>, j: nat, r: Sweep)
    requires j < |pending|
  {
    var k := pending[j];
    var o := Rule(at.ds, k, at.kept + pending[j..]);
    (k in r.deleted <==> o == Deleted) && (k in r.refused <==> o == Refused) && (k in r.kept <==> o == Kept)
  }

  /** A visit decides on the visited primitive by the rule. */
  lemma VisitDecides(at: Sweep, pending: seq<PrimId>, j: nat, src: map<PrimId, Prim>, mergeFrom: (Prim, Prim) -> Prim)
    requires j < |pending|
    requires pending[j] !in at.kept && pending[j] !in at.refused && pending[j] !in at.deleted
    ensures Verdict(at, pending, j, Visit(at, pending, j, src, mergeFrom))
  {
  }

  /** A visit leaves the verdict on every other primitive as it was. */
  lemma VisitKeepsOthers(st: Sweep, pending: seq<PrimId>, j: nat, src: map<PrimId, Prim>,
                         mergeFrom: (Prim, Prim) -> Prim, k: PrimId)
    requires j < |pending| && k != pending[j]
    ensures var r := Visit(st, pending, j, src, mergeFrom);
            (k in r.deleted <==> k in st.deleted) && (k in r.refused <==> k in st.refused) &&
            (k in r.kept <==> k in st.kept)
  {
  }

  /** The verdict on `pending[j]` carries over to a state where it has the same standing. */
  lemma VerdictTransfer(at: Sweep, pending: seq<PrimId>, j: nat, r1: Sweep, r2: Sweep)
    requires j < |pending| && Verdict(at, pending, j, r1)
    requires pending[j] in r2.deleted <==> pending[j] in r1.deleted
    requires pending[j] in r2.refused <==> pending[j] in r1.refused
    requires pending[j] in r2.kept <==> pending[j] in r1.kept
    ensures Verdict(at, pending, j, r2)
  {
  }

  /** The verdict of a pass on `pending[j]` right after its visit. */
  lemma PassVerdictFirst(ds: DataSet, pending: seq<PrimId>, src: map<PrimId, Prim>,
                         mergeFrom: (Prim, Prim) -> Prim, j: nat)
    requires Distinct(pending) && j < |pending|
    ensures Verdict(PassUpTo(ds, pending, j, src, mergeFrom), pending, j, PassUpTo(ds, pending, j + 1, src, mergeFrom))
  {
    var at := PassUpTo(ds, pending, j, src, mergeFrom);
    DistinctPrefix(pending, j);
    PassVisitedOnly(ds, pending, j, src, mergeFrom, pending[j]);
    VisitDecides(at, pending, j, src, mergeFrom);
    PassAdvance(ds, pending, j, src, mergeFrom);
  }

  /** Later visits leave the verdict on `pending[j]` as it was. */
  lemma PassVerdictKept(ds: DataSet, pending: seq<PrimId>, src: map<PrimId, Prim>,
                        mergeFrom: (Prim, Prim) -> Prim, j: nat, i: nat)
    requires Distinct(pending) && j + 1 < i <= |pending|
    requires Verdict(PassUpTo(ds, pending, j, src, mergeFrom), pending, j, PassUpTo(ds, pending, i - 1, src, mergeFrom))
    ensures Verdict(PassUpTo(ds, pending, j, src, mergeFrom), pending, j, PassUpTo(ds, pending, i, src, mergeFrom))
  {
    var before := PassUpTo(ds, pending, i - 1, src, mergeFrom);
    assert pending[i - 1] != pending[j];
    VisitKeepsOthers(before, pending, i - 1, src, mergeFrom, pending[j]);
    VerdictTransfer(PassUpTo(ds, pending, j, src, mergeFrom), pending, j, before,
                    PassUpTo(ds, pending, i, src, mergeFrom));
  }

  /** The verdict of a pass on `pending[j]` is the rule applied in the state of its visit. */
  lemma {:induction false} PassVerdict(ds: DataSet, pending: seq<PrimId>, src: map<PrimId, Prim>,
                                       mergeFrom: (Prim, Prim) -> Prim, j: nat, i: nat)
    requires Distinct(pending) && j < i <= |pending|
    ensures Verdict(PassUpTo(ds, pending, j, src, mergeFrom), pending, j, PassUpTo(ds, pending, i, src, mergeFrom))
  {
    if i == j + 1 {
      PassVerdictFirst(ds, pending, src, mergeFrom, j);
    } else {
      PassVerdict(ds, pending, src, mergeFrom, j, i - 1);
      PassVerdictKept(ds, pending, src, mergeFrom, j, i);
    }
  }

  /**
   * What holds after one pass has visited the queued primitives `visited`
   * (a prefix of `pending`): each was kept, refused or deleted, the refused
   * ones each left a conflict, the deleted ones were finalized and nothing
   * else changed; `flag` says whether anything left the queue, and while
   * nothing has, the dataset and conflicts are untouched and every kept
   * primitive has referrers, all of them queued.
   */
  ghost predicate PassState(ds0: DataSet, cs0: seq<Conflict>, pending: seq<PrimId>, src: map<PrimId, Prim>,
                            mergeFrom: (Prim, Prim) -> Prim, visited: seq<PrimId>,
                            ds: DataSet, cs: seq<Conflict>, kept: seq<PrimId>, flag: bool,
                            refused: seq<PrimId>, deleted: set<PrimId>)
  {
    && ds.order == ds0.order && ds.prims.Keys == ds0.prims.Keys
    && (forall k :: k in visited ==> k in src && k in ds0.prims)
    && (forall k :: k in visited <==> k in kept || k in refused || k in deleted)
    && (forall k :: k in kept ==> k !in refused && k !in deleted)
    && (forall k :: k in refused ==> k !in deleted)
    && Distinct(kept) && Distinct(refused)
    && cs == cs0 + RefusalConflicts(refused)
    && (forall k :: k in deleted ==> ds.prims[k] == Finalized(ds0.prims[k], src[k], mergeFrom))
    && (forall k :: k in ds0.prims && k !in deleted ==> ds.prims[k] == ds0.prims[k])
    && |kept| <= |visited| && (flag <==> |kept| < |visited|)
    && (!flag ==> kept == visited && refused == [] && deleted == {} && ds == ds0 && cs == cs0 &&
                  ReferredWithin(ds0, kept, pending))
  }

  /** Before the first visit nothing has changed. */
  lemma PassStart(ds0: DataSet, cs0: seq<Conflict>, pending: seq<PrimId>, src: map<PrimId, Prim>,
                  mergeFrom: (Prim, Prim) -> Prim)
    ensures PassState(ds0, cs0, pending, src, mergeFrom, [], ds0, cs0, [], false, [], {})
  {
    assert RefusalConflicts([]) == [];
  }

  /** Visiting `k` and deleting it. */
  lemma PassDeleted(ds0: DataSet, cs0: seq<Conflict>, pending: seq<PrimId>, src: map<PrimId, Prim>,
                    mergeFrom: (Prim, Prim) -> Prim, visited: seq<PrimId>,
                    ds: DataSet, cs: seq<Conflict>, kept: seq<PrimId>, flag: bool,
                    refused: seq<PrimId>, deleted: set<PrimId>, k: PrimId)
    requires PassState(ds0, cs0, pending, src, mergeFrom, visited, ds, cs, kept, flag, refused, deleted)
    requires k in ds0.prims && k in src && k !in visited
    ensures k in ds.prims
    ensures PassState(ds0, cs0, pending, src, mergeFrom, visited + [k],
                      ds.(prims := ds.prims[k := Finalized(ds.prims[k], src[k], mergeFrom)]), cs, kept, true, refused, deleted + {k})
  {
    assert forall x :: x in visited + [k] <==> x in visited || x == k;
  }

  /** Visiting `k` and refusing its deletion with a conflict. */
  lemma PassRefused(ds0: DataSet, cs0: seq<Conflict>, pending: seq<PrimId>, src: map<PrimId, Prim>,
                    mergeFrom: (Prim, Prim) -> Prim, visited: seq<PrimId>,
                    ds: DataSet, cs: seq<Conflict>, kept: seq<PrimId>, flag: bool,
                    refused: seq<PrimId>, deleted: set<PrimId>, k: PrimId)
    requires PassState(ds0, cs0, pending, src, mergeFrom, visited, ds, cs, kept, flag, refused, deleted)
    requires k in ds0.prims && k in src && k !in visited
    ensures PassState(ds0, cs0, pending, src, mergeFrom, visited + [k],
                      ds, cs + [Conflict(k, k, false)], kept, true, refused + [k], deleted)
  {
    assert forall x :: x in visited + [k] <==> x in visited || x == k;
    assert forall x :: x in refused + [k] <==> x in refused || x == k;
    RefusalConflictsAppend(refused, [k]);
    DistinctAppend(refused, [k]);
  }

  /**
   * Visiting `k` and keeping it, its referrers being among the kept ones
   * and those not yet visited, `tail`.
   */
  lemma PassKept(ds0: DataSet, cs0: seq<Conflict>, pending: seq<PrimId>, src: map<PrimId, Prim>,
                 mergeFrom: (Prim, Prim) -> Prim, visited: seq<PrimId>,
                 ds: DataSet, cs: seq<Conflict>, kept: seq<PrimId>, flag: bool,
                 refused: seq<PrimId>, deleted: set<PrimId>, k: PrimId, tail: seq<PrimId>)
    requires PassState(ds0, cs0, pending, src, mergeFrom, visited, ds, cs, kept, flag, refused, deleted)
    requires k in ds0.prims && k in src && k !in visited && visited + tail == pending
    requires Referrers(ds, k) != {} && forall x :: x in Referrers(ds, k) ==> x in kept + tail
    ensures PassState(ds0, cs0, pending, src, mergeFrom, visited + [k], ds, cs, kept + [k], flag, refused, deleted)
  {
    assert forall x :: x in visited + [k] <==> x in visited || x == k;
    assert forall x :: x in kept + [k] <==> x in kept || x == k;
    DistinctAppend(kept, [k]);
    if !flag {
      ReferredWithinAppend(ds0, kept, k, pending);
    }
  }

  /** The `i`-th queued primitive is not among those visited before it, which it extends by one. */
  lemma VisitNext(pending: seq<PrimId>, i: nat)
    requires i < |pending| && Distinct(pending)
    ensures pending[i] !in pending[..i]
    ensures pending[..i + 1] == pending[..i] + [pending[i]]
    ensures pending[..i] + pending[i..] == pending
  {
    DistinctPrefix(pending, i);
  }

  /**
   * The visit of `pending[i]` within a pass: the step on it and the
   * bookkeeping of its outcome.
   */
  method PassVisit(ds0: DataSet, cs0: seq<Conflict>, pending: seq<PrimId>, src: map<PrimId, Prim>,
                   mergeFrom: (Prim, Prim) -> Prim, i: nat,
                   ds: DataSet, cs: seq<Conflict>, kept: seq<PrimId>, flag: bool,
                   ghost refused: seq<PrimId>, ghost deleted: set<PrimId>)
    returns (ds': DataSet, cs': seq<Conflict>, kept': seq<PrimId>, flag': bool,
             ghost refused': seq<PrimId>, ghost deleted': set<PrimId>)
    requires i < |pending| && Distinct(pending) && pending[i] in ds0.prims && pending[i] in src
    requires PassState(ds0, cs0, pending, src, mergeFrom, pending[..i], ds, cs, kept, flag, refused, deleted)
    requires PassUpTo(ds0, pending, i, src, mergeFrom) == Sweep(ds, kept, refused, deleted)
    ensures PassState(ds0, cs0, pending, src, mergeFrom, pending[..i + 1], ds', cs', kept', flag', refused', deleted')
    ensures PassUpTo(ds0, pending, i + 1, src, mergeFrom) == Sweep(ds', kept', refused', deleted')
  {
    var k := pending[i];
    var live := kept + pending[i..];
    var o;
    ds', o := DeletionStep(ds, k, live, src[k], mergeFrom);
    VisitNext(pending, i);
    match o {
      case Deleted =>
        SweepDeleted(ds0, pending, i, src, mergeFrom, ds, kept, refused, deleted);
        PassDeleted(ds0, cs0, pending, src, mergeFrom, pending[..i], ds, cs, kept, flag, refused, deleted, k);
        cs', kept', flag', refused', deleted' := cs, kept, true, refused, deleted + {k};
      case Refused =>
        SweepRefused(ds0, pending, i, src, mergeFrom, ds, kept, refused, deleted);
        PassRefused(ds0, cs0, pending, src, mergeFrom, pending[..i], ds, cs, kept, flag, refused, deleted, k);
        cs', kept', flag', refused', deleted' := cs + [Conflict(k, k, false)], kept, true, refused + [k], deleted;
      case Kept =>
        SweepKept(ds0, pending, i, src, mergeFrom, ds, kept, refused, deleted);
        PassKept(ds0, cs0, pending, src, mergeFrom, pending[..i], ds, cs, kept, flag, refused, deleted, k, pending[i..]);
        cs', kept', flag', refused', deleted' := cs, kept + [k], flag, refused, deleted;
    }
  }

  /**
   * One pass of the do/while loop of deleteMarkedObjects over the queued
   * primitives `pending`, in iteration order. A primitive without referrers
   * is deleted; one with a referrer outside the queue as it stands (the
   * primitives kept so far and those not yet visited) is refused with a
   * conflict; any other is kept for the next pass. `flag` says whether the
   * pass removed anything from the queue. Fails with the first queued
   * primitive that the source dataset lacks.
   */
  method DeletionPass(ds0: DataSet, cs0: seq<Conflict>, pending: seq<PrimId>, src: map<PrimId, Prim>,
                      mergeFrom: (Prim, Prim) -> Prim)
    returns (ds: DataSet, cs: seq<Conflict>, kept: seq<PrimId>, flag: bool,
             ghost refused: seq<PrimId>, ghost deleted: set<PrimId>, r: Outcome<PrimId>)
    requires forall k :: k in pending ==> k in ds0.prims
    requires Distinct(pending)
    ensures ds.order == ds0.order && ds.prims.Keys == ds0.prims.Keys
    ensures |cs0| <= |cs| && cs[..|cs0|] == cs0
    ensures forall k :: k in kept ==> k in pending
    ensures r.Fail? ==> r.error in pending && r.error !in src
    ensures r.Pass? ==> forall k :: k in pending ==> k in src
    ensures r.Pass? ==> forall k :: k in pending <==> k in kept || k in refused || k in deleted
    ensures r.Pass? ==> forall k :: k in kept ==> k !in refused && k !in deleted
    ensures r.Pass? ==> forall k :: k in refused ==> k !in deleted
    ensures r.Pass? ==> Distinct(kept) && Distinct(refused)
    ensures r.Pass? ==> cs == cs0 + RefusalConflicts(refused)
    ensures r.Pass? ==> forall k :: k in deleted ==> ds.prims[k] == Finalized(ds0.prims[k], src[k], mergeFrom)
    ensures r.Pass? ==> forall k :: k in ds0.prims && k !in deleted ==> ds.prims[k] == ds0.prims[k]
    ensures r.Pass? ==> |kept| <= |pending| && (flag <==> |kept| < |pending|)
    ensures r.Pass? && !flag ==> kept == pending && refused == [] && deleted == {} && ds == ds0 && cs == cs0 &&
                                 ReferredOnlyAmong(ds, kept)
    ensures r.Pass? ==> PassUpTo(ds0, pending, |pending|, src, mergeFrom) == Sweep(ds, kept, refused, deleted)
    ensures r.Pass? ==> forall j :: 0 <= j < |pending| ==>
                          Verdict(PassUpTo(ds0, pending, j, src, mergeFrom), pending, j, Sweep(ds, kept, refused, deleted))
  {
    ds, cs, kept, flag, refused, deleted := ds0, cs0, [], false, [], {};
    PassStart(ds0, cs0, pending, src, mergeFrom);
    var i := 0;
    while i < |pending|
      invariant 0 <= i <= |pending|
      invariant PassState(ds0, cs0, pending, src, mergeFrom, pending[..i], ds, cs, kept, flag, refused, deleted)
      invariant PassUpTo(ds0, pending, i, src, mergeFrom) == Sweep(ds, kept, refused, deleted)
    {
      var k := pending[i];
      if k !in src {
        // the exception leaves the queue as the iterator left it
        kept := kept + pending[i..];
        assert cs[..|cs0|] == cs0;
        r := Fail(k);
        return;
      }
      ds, cs, kept, flag, refused, deleted :=
        PassVisit(ds0, cs0, pending, src, mergeFrom, i, ds, cs, kept, flag, refused, deleted);
      i := i + 1;
    }
    assert pending[..i] == pending;
    assert cs[..|cs0|] == cs0;
    forall j | 0 <= j < |pending|
      ensures Verdict(PassUpTo(ds0, pending, j, src, mergeFrom), pending, j, Sweep(ds, kept, refused, deleted))
    {
      PassVerdict(ds0, pending, src, mergeFrom, j, |pending|);
    }
    r := Pass;
  }

  /**
   * The state of the do/while loop of deleteMarkedObjects between passes:
   * the queue is split into what is still `left`, what was `refused` (one
   * conflict each, in order) and what was `deleted`.
   */
  ghost predicate StableState(ds0: DataSet, cs0: seq<Conflict>, queued: seq<PrimId>, src: map<PrimId, Prim>,
                              mergeFrom: (Prim, Prim) -> Prim, ds: DataSet, cs: seq<Conflict>,
                              left: seq<PrimId>, refused: seq<PrimId>, deleted: set<PrimId>)
  {
    && (forall k :: k in queued ==> k in ds0.prims)
    && ds.order == ds0.order && ds.prims.Keys == ds0.prims.Keys
    && (forall k :: k in queued <==> k in left || k in refused || k in deleted)
    && (forall k :: k in left ==> k !in refused && k !in deleted)
    && (forall k :: k in refused ==> k !in deleted)
    && (forall k :: k in refused || k in deleted ==> k in src)
    && Distinct(left) && Distinct(refused)
    && cs == cs0 + RefusalConflicts(refused)
    && (forall k :: k in deleted ==> ds.prims[k] == Finalized(ds0.prims[k], src[k], mergeFrom))
    && (forall k :: k in ds0.prims && k !in deleted ==> ds.prims[k] == ds0.prims[k])
  }

  /** A pass that completes keeps the state of the loop, with what it refused and deleted added. */
  lemma StableStep(ds0: DataSet, cs0: seq<Conflict>, queued: seq<PrimId>, src: map<PrimId, Prim>,
                   mergeFrom: (Prim, Prim) -> Prim, ds1: DataSet, cs1: seq<Conflict>,
                   left: seq<PrimId>, refused: seq<PrimId>, deleted: set<PrimId>,
                   ds: DataSet, cs: seq<Conflict>, kept: seq<PrimId>, refused1: seq<PrimId>, deleted1: set<PrimId>)
    requires StableState(ds0, cs0, queued, src, mergeFrom, ds1, cs1, left, refused, deleted)
    requires ds.order == ds1.order && ds.prims.Keys == ds1.prims.Keys
    requires forall k :: k in left ==> k in src
    requires forall k :: k in kept ==> k in left
    requires forall k :: k in left <==> k in kept || k in refused1 || k in deleted1
    requires forall k :: k in kept ==> k !in refused1 && k !in deleted1
    requires forall k :: k in refused1 ==> k !in deleted1
    requires Distinct(kept) && Distinct(refused1)
    requires cs == cs1 + RefusalConflicts(refused1)
    requires forall k :: k in deleted1 ==> ds.prims[k] == Finalized(ds1.prims[k], src[k], mergeFrom)
    requires forall k :: k in ds1.prims && k !in deleted1 ==> ds.prims[k] == ds1.prims[k]
    ensures StableState(ds0, cs0, queued, src, mergeFrom, ds, cs, kept, refused + refused1, deleted + deleted1)
  {
    RefusalConflictsAppend(refused, refused1);
    forall k | k in deleted1
      ensures ds.prims[k] == Finalized(ds0.prims[k], src[k], mergeFrom)
    {
      assert ds1.prims[k] == ds0.prims[k];
    }
    assert forall k :: k in refused + refused1 <==> k in refused || k in refused1;
    DistinctAppend(refused, refused1);
    forall k | k in deleted
      ensures ds.prims[k] == Finalized(ds0.prims[k], src[k], mergeFrom)
    {
      assert k !in left;
    }
  }

  /** A completed pass from `ds1` over `left` is one step of the do/while loop. */
  lemma StabilizeStep(ds1: DataSet, left: seq<PrimId>, refused: seq<PrimId>, deleted: set<PrimId>,
                      src: map<PrimId, Prim>, mergeFrom: (Prim, Prim) -> Prim,
                      ds: DataSet, kept: seq<PrimId>, flag: bool, refused1: seq<PrimId>, deleted1: set<PrimId>)
    requires PassUpTo(ds1, left, |left|, src, mergeFrom) == Sweep(ds, kept, refused1, deleted1)
    requires flag <==> |kept| < |left|
    requires !flag ==> kept == left && refused1 == [] && deleted1 == {} && ds == ds1
    ensures Stabilize(ds1, left, refused, deleted, src, mergeFrom) ==
              if flag then Stabilize(ds, kept, refused + refused1, deleted + deleted1, src, mergeFrom)
              else Sweep(ds, kept, refused + refused1, deleted + deleted1)
  {
    assert refused + [] == refused;
  }

  /**
   * The do/while loop of deleteMarkedObjects: passes over the queue until a
   * pass removes nothing. What is `left` then is referred to only from
   * within itself.
   */
  method DeleteUntilStable(ds0: DataSet, cs0: seq<Conflict>, queued: seq<PrimId>, src: map<PrimId, Prim>,
                           mergeFrom: (Prim, Prim) -> Prim)
    returns (ds: DataSet, cs: seq<Conflict>, left: seq<PrimId>,
             ghost refused: seq<PrimId>, ghost deleted: set<PrimId>, r: Outcome<PrimId>)
    requires forall k :: k in queued ==> k in ds0.prims
    requires Distinct(queued)
    ensures ds.order == ds0.order && ds.prims.Keys == ds0.prims.Keys
    ensures |cs0| <= |cs| && cs[..|cs0|] == cs0
    ensures forall k :: k in left ==> k in queued
    ensures r.Fail? ==> r.error in queued && r.error !in src
    ensures r.Pass? ==> forall k :: k in queued ==> k in src
    ensures r.Pass? ==> forall k :: k in queued <==> k in left || k in refused || k in deleted
    ensures r.Pass? ==> forall k :: k in left ==> k !in refused && k !in deleted
    ensures r.Pass? ==> forall k :: k in refused ==> k !in deleted
    ensures r.Pass? ==> Distinct(left) && Distinct(refused)
    ensures r.Pass? ==> cs == cs0 + RefusalConflicts(refused)
    ensures r.Pass? ==> forall k :: k in deleted ==> ds.prims[k] == Finalized(ds0.prims[k], src[k], mergeFrom)
    ensures r.Pass? ==> forall k :: k in ds0.prims && k !in deleted ==> ds.prims[k] == ds0.prims[k]
    ensures r.Pass? ==> ReferredOnlyAmong(ds, left)
    ensures r.Pass? ==> Stabilize(ds0, queued, [], {}, src, mergeFrom) == Sweep(ds, left, refused, deleted)
  {
    ds, cs, left, refused, deleted := ds0, cs0, queued, [], {};
    var flag := true;
    assert RefusalConflicts([]) == [];
    while flag
      invariant StableState(ds0, cs0, queued, src, mergeFrom, ds, cs, left, refused, deleted)
      invariant !flag ==> ReferredOnlyAmong(ds, left) && forall k :: k in left ==> k in src
      invariant Stabilize(ds0, queued, [], {}, src, mergeFrom) ==
                    if flag then Stabilize(ds, left, refused, deleted, src, mergeFrom)
                    else Sweep(ds, left, refused, deleted)
      decreases |left| + (if flag then 1 else 0)
    {
      var kept, r1;
      ghost var ds1, cs1, refused1, deleted1;
      ds1, cs1 := ds, cs;
      ds, cs, kept, flag, refused1, deleted1, r1 := DeletionPass(ds, cs, left, src, mergeFrom);
      if r1.Fail? {
        assert cs[..|cs0|] == cs1[..|cs0|];
        left := kept;
        r := r1;
        return;
      }
      StableStep(ds0, cs0, queued, src, mergeFrom, ds1, cs1, left, refused, deleted, ds, cs, kept, refused1, deleted1);
      StabilizeStep(ds1, left, refused, deleted, src, mergeFrom, ds, kept, flag, refused1, deleted1);
      left, refused, deleted := kept, refused + refused1, deleted + deleted1;
    }
    r := Pass;
  }

  /**
   * The tail of deleteMarkedObjects: every primitive `left` in the queue is
   * first detached (node list or member list emptied), then deleted and
   * merged from its source primitive.
   */
  method FinalizeLeft(ds0: DataSet, left: seq<PrimId>, src: map<PrimId, Prim>, mergeFrom: (Prim, Prim) -> Prim)
    returns (ds: DataSet)
    requires forall k :: k in left ==> k in ds0.prims && k in src
    requires Distinct(left)
    ensures ds.order == ds0.order && ds.prims.Keys == ds0.prims.Keys
    ensures forall k :: k in left ==> ds.prims[k] == Finalized(ClearStructure(k, ds0.prims[k]), src[k], mergeFrom)
    ensures forall k :: k in ds0.prims && k !in left ==> ds.prims[k] == ds0.prims[k]
  {
    var cleared := DetachLeft(ds0, left);
    ds := DeleteLeft(cleared, left, src, mergeFrom);
    forall k | k in ds0.prims
      ensures ds.prims[k] == if k in left then Finalized(ClearStructure(k, ds0.prims[k]), src[k], mergeFrom) else ds0.prims[k]
    {
      DetachAllAt(ds0.prims, left, k);
      DeleteAllAt(cleared.prims, left, src, mergeFrom, k);
    }
  }

  /** The primitives of `prims` with the node or member list of each of `ks` emptied in turn. */
  function DetachAll(prims: map<PrimId, Prim>, ks: seq<PrimId>): (r: map<PrimId, Prim>)
    requires forall k :: k in ks ==> k in prims
    ensures r.Keys == prims.Keys
  {
    if ks == [] then prims
    else
      var m := DetachAll(prims, ks[..|ks| - 1]);
      var k := ks[|ks| - 1];
      m[k := ClearStructure(k, m[k])]
  }

  /** Detaching `ks` empties the structure of each of them once and leaves the rest alone. */
  lemma {:induction false} DetachAllAt(prims: map<PrimId, Prim>, ks: seq<PrimId>, k: PrimId)
    requires forall x :: x in ks ==> x in prims
    requires k in prims
    ensures DetachAll(prims, ks)[k] == if k in ks then ClearStructure(k, prims[k]) else prims[k]
  {
    if ks != [] {
      var front := ks[..|ks| - 1];
      assert k in ks <==> k in front || k == ks[|ks| - 1] by { DropLastAppend(ks); }
      DetachAllAt(prims, front, k);
    }
  }

  /** The primitives of `prims` with each of `ks` deleted and merged from its source in turn. */
  function DeleteAll(prims: map<PrimId, Prim>, ks: seq<PrimId>, src: map<PrimId, Prim>,
                     mergeFrom: (Prim, Prim) -> Prim): (r: map<PrimId, Prim>)
    requires forall k :: k in ks ==> k in prims && k in src
    ensures r.Keys == prims.Keys
  {
    if ks == [] then prims
    else
      var m := DeleteAll(prims, ks[..|ks| - 1], src, mergeFrom);
      var k := ks[|ks| - 1];
      m[k := Finalized(m[k], src[k], mergeFrom)]
  }

  /** Deleting `ks`, none of them twice, finalizes each of them and leaves the rest alone. */
  lemma {:induction false} DeleteAllAt(prims: map<PrimId, Prim>, ks: seq<PrimId>, src: map<PrimId, Prim>,
                                       mergeFrom: (Prim, Prim) -> Prim, k: PrimId)
    requires forall x :: x in ks ==> x in prims && x in src
    requires Distinct(ks) && k in prims
    ensures DeleteAll(prims, ks, src, mergeFrom)[k] ==
              if k in ks then Finalized(prims[k], src[k], mergeFrom) else prims[k]
  {
    if ks != [] {
      var front := ks[..|ks| - 1];
      assert k in ks <==> k in front || k == ks[|ks| - 1] by { DropLastAppend(ks); }
      DistinctPrefix(ks, |ks| - 1);
      assert Distinct(front) by {
        assert forall i :: 0 <= i < |front| ==> front[i] == ks[i];
      }
      DeleteAllAt(prims, front, src, mergeFrom, k);
    }
  }

  /** The first loop of the tail: the node list or member list of every left primitive is emptied. */
  method DetachLeft(ds0: DataSet, left: seq<PrimId>) returns (ds: DataSet)
    requires forall k :: k in left ==> k in ds0.prims
    ensures ds == ds0.(prims := DetachAll(ds0.prims, left))
  {
    ds := ds0;
    var i := 0;
    while i < |left|
      invariant 0 <= i <= |left|
      invariant ds == ds0.(prims := DetachAll(ds0.prims, left[..i]))
    {
      var k := left[i];
      assert left[..i + 1][..i] == left[..i];
      ds := ds.(prims := ds.prims[k := ClearStructure(k, ds.prims[k])]);
      i := i + 1;
    }
    assert i == |left| && left[..i] == left;
  }

  /** The second loop of the tail: every left primitive is deleted and merged from its source. */
  method DeleteLeft(ds0: DataSet, left: seq<PrimId>, src: map<PrimId, Prim>, mergeFrom: (Prim, Prim) -> Prim)
    returns (ds: DataSet)
    requires forall k :: k in left ==> k in ds0.prims && k in src
    ensures ds == ds0.(prims := DeleteAll(ds0.prims, left, src, mergeFrom))
  {
    ds := ds0;
    var i := 0;
    while i < |left|
      invariant 0 <= i <= |left|
      invariant ds == ds0.(prims := DeleteAll(ds0.prims, left[..i], src, mergeFrom))
    {
      var k := left[i];
      assert left[..i + 1][..i] == left[..i];
      ds := ds.(prims := ds.prims[k := Finalized(ds.prims[k], src[k], mergeFrom)]);
      i := i + 1;
    }
    assert i == |left| && left[..i] == left;
  }

  /**
   * The outcome of deleteMarkedObjects from `ds0`/`cs0` with `queued`: the
   * passes of `Stabilize` split the queue into what is `left`, what was
   * `refused` (one conflict each, in order) and what was `deleted`; `stable`
   * is the dataset when no pass changes anything any more, and only the left
   * primitives refer to the left primitives there; those are then detached
   * and deleted.
   */
  ghost predicate DeletionDone(ds0: DataSet, ds: DataSet, cs0: seq<Conflict>, cs: seq<Conflict>,
                               queued: seq<PrimId>, left: seq<PrimId>, src: map<PrimId, Prim>,
                               mergeFrom: (Prim, Prim) -> Prim,
                               refused: seq<PrimId>, deleted: set<PrimId>, stable: DataSet) {
    (forall k :: k in queued ==> k in src && k in ds0.prims) &&
    Stabilize(ds0, queued, [], {}, src, mergeFrom) == Sweep(stable, left, refused, deleted) &&
    (forall k :: k in queued <==> k in left || k in refused || k in deleted) &&
    (forall k :: k in left ==> k !in refused && k !in deleted) &&
    (forall k :: k in refused ==> k !in deleted) &&
    Distinct(left) &&
    cs == cs0 + RefusalConflicts(refused) &&
    stable.order == ds0.order && stable.prims.Keys == ds0.prims.Keys &&
    (forall k :: k in deleted ==> stable.prims[k] == Finalized(ds0.prims[k], src[k], mergeFrom)) &&
    (forall k :: k in ds0.prims && k !in deleted ==> stable.prims[k] == ds0.prims[k]) &&
    ReferredOnlyAmong(stable, left) &&
    ds.order == ds0.order && ds.prims.Keys == ds0.prims.Keys &&
    (forall k :: k in left ==> ds.prims[k] == Finalized(ClearStructure(k, stable.prims[k]), src[k], mergeFrom)) &&
    (forall k :: k in stable.prims && k !in left ==> ds.prims[k] == stable.prims[k])
  }

  /** deleteMarkedObjects on the target dataset `ds0` and conflicts `cs0`, with the queue `queued`. */
  method DeleteQueued(ds0: DataSet, cs0: seq<Conflict>, queued: seq<PrimId>, src: map<PrimId, Prim>,
                      mergeFrom: (Prim, Prim) -> Prim)
    returns (ds: DataSet, cs: seq<Conflict>, left: seq<PrimId>, r: Outcome<PrimId>,
             ghost refused: seq<PrimId>, ghost deleted: set<PrimId>, ghost stable: DataSet)
    requires forall k :: k in queued ==> k in ds0.prims
    requires Distinct(queued)
    ensures ds.order == ds0.order && ds.prims.Keys == ds0.prims.Keys
    ensures forall k :: k in left ==> k in queued
    ensures |cs0| <= |cs| && cs[..|cs0|] == cs0
    ensures r.Fail? ==> r.error in queued && r.error !in src
    ensures r.Pass? ==> DeletionDone(ds0, ds, cs0, cs, queued, left, src, mergeFrom, refused, deleted, stable)
  {
    ds, cs, left, refused, deleted, r := DeleteUntilStable(ds0, cs0, queued, src, mergeFrom);
    stable := ds;
    if r.Fail? {
      return;
    }
    ds := FinalizeLeft(ds, left, src, mergeFrom);
  }
}
