/**
 * The memberships of selected primitives in relations: which relations the
 * membership table lists, and at which positions of their member lists the
 * selected primitives appear.
 */
module Memberships {
  import opened Osm
  import opened Text

  /**
   * The positions, counted from 1, at which `k` is a member of the list,
   * in list order.
   */
  function MemberPositions(members: seq<Member>, k: PrimId): (ps: seq<int>)
    ensures forall j :: 0 <= j < |ps| ==> 1 <= ps[j] <= |members| && members[ps[j] - 1].ref == k
    ensures forall i, j :: 0 <= i < j < |ps| ==> ps[i] < ps[j]
  {
    if members == [] then []
    else
      var n := |members|;
      MemberPositions(members[..n - 1], k) + (if members[n - 1].ref == k then [n] else [])
  }

  /** Every position at which `k` is a member is among them. */
  lemma {:induction false} MemberPositionsComplete(members: seq<Member>, k: PrimId, i: nat)
    requires i < |members| && members[i].ref == k
    ensures i + 1 in MemberPositions(members, k)
  {
    var n := |members|;
    if i < n - 1 {
      MemberPositionsComplete(members[..n - 1], k, i);
    } else {
      assert MemberPositions(members, k)[|MemberPositions(members, k)| - 1] == n;
    }
  }

  /** A relation that has `k` as a member lists it at one position at least. */
  lemma {:induction false} MemberPositionsNonEmpty(members: seq<Member>, k: PrimId, m: Member)
    requires m in members && m.ref == k
    ensures |MemberPositions(members, k)| >= 1
  {
    var i :| 0 <= i < |members| && members[i] == m;
    MemberPositionsComplete(members, k, i);
  }

  /**
   * The referrers of `k` the table lists: relations that are neither
   * incomplete nor deleted.
   */
  function QualifyingOf(ds: DataSet, k: PrimId): (rs: set<PrimId>)
    ensures forall r :: r in rs <==>
              r in Referrers(ds, k) && r.kind == Relation && !ds.prims[r].incomplete && !ds.prims[r].deleted
  {
    set r | r in Referrers(ds, k) && r.kind == Relation && !ds.prims[r].incomplete && !ds.prims[r].deleted
  }

  /** The relations listed for the selection: the qualifying referrers of any selected primitive. */
  function Relations(ds: DataSet, sel: seq<PrimId>): (rs: set<PrimId>)
    ensures forall r :: r in rs ==> r in ds.prims && r.kind == Relation
  {
    if sel == [] then {} else Relations(ds, sel[..|sel| - 1]) + QualifyingOf(ds, sel[|sel| - 1])
  }

  /** A relation is listed exactly when it qualifies for one of the selected primitives. */
  lemma {:induction false} RelationsListed(ds: DataSet, sel: seq<PrimId>, r: PrimId)
    ensures r in Relations(ds, sel) <==> exists j :: 0 <= j < |sel| && r in QualifyingOf(ds, sel[j])
  {
    if sel != [] {
      var front := sel[..|sel| - 1];
      RelationsListed(ds, front, r);
      if r in Relations(ds, front) {
        var j :| 0 <= j < |front| && r in QualifyingOf(ds, front[j]);
        assert sel[j] == front[j];
      }
      if exists j :: 0 <= j < |sel| && r in QualifyingOf(ds, sel[j]) {
        var j :| 0 <= j < |sel| && r in QualifyingOf(ds, sel[j]);
        if j < |front| {
          assert front[j] == sel[j];
        }
      }
    }
  }

  /**
   * The positions recorded for relation `r`: for each selected primitive
   * in turn that `r` qualifies for, its positions in `r`'s member list.
   */
  function Collected(ds: DataSet, sel: seq<PrimId>, r: PrimId): (ps: seq<int>)
    requires r in ds.prims
  {
    if sel == [] then []
    else
      var k := sel[|sel| - 1];
      Collected(ds, sel[..|sel| - 1], r) + (if r in QualifyingOf(ds, k) then MemberPositions(ds.prims[r].members, k) else [])
  }

  /**
   * Every recorded position is a position of the member list, held by one
   * of the selected primitives.
   */
  lemma {:induction false} CollectedValid(ds: DataSet, sel: seq<PrimId>, r: PrimId)
    requires r in ds.prims
    ensures forall j :: 0 <= j < |Collected(ds, sel, r)| ==>
              var p := Collected(ds, sel, r)[j];
              1 <= p <= |ds.prims[r].members| && ds.prims[r].members[p - 1].ref in sel
  {
    if sel != [] {
      var front := sel[..|sel| - 1];
      CollectedValid(ds, front, r);
      forall x | x in front
        ensures x in sel
      {
        var i :| 0 <= i < |front| && front[i] == x;
        assert sel[i] == x;
      }
    }
  }

  /**
   * Every position at which a selected primitive is a member of a listed
   * relation is recorded.
   */
  lemma {:induction false} CollectedComplete(ds: DataSet, sel: seq<PrimId>, r: PrimId, j: nat, i: nat)
    requires r in ds.prims && j < |sel| && r in QualifyingOf(ds, sel[j])
    requires i < |ds.prims[r].members| && ds.prims[r].members[i].ref == sel[j]
    ensures i + 1 in Collected(ds, sel, r)
  {
    var front := sel[..|sel| - 1];
    if j < |sel| - 1 {
      assert front[j] == sel[j];
      CollectedComplete(ds, front, r, j, i);
    } else {
      MemberPositionsComplete(ds.prims[r].members, sel[j], i);
    }
  }

  /** Nothing is recorded for a relation that is not listed. */
  lemma {:induction false} NotListedNothingCollected(ds: DataSet, sel: seq<PrimId>, r: PrimId)
    requires r in ds.prims && r !in Relations(ds, sel)
    ensures Collected(ds, sel, r) == []
  {
    if sel != [] {
      NotListedNothingCollected(ds, sel[..|sel| - 1], r);
    }
  }

  /** A listed relation has at least one recorded position. */
  lemma {:induction false} ListedHasPositions(ds: DataSet, sel: seq<PrimId>, r: PrimId)
    requires r in Relations(ds, sel)
    ensures r in ds.prims && |Collected(ds, sel, r)| >= 1
  {
    RelationsListed(ds, sel, r);
    var j :| 0 <= j < |sel| && r in QualifyingOf(ds, sel[j]);
    var m :| m in ds.prims[r].members && m.ref == sel[j];
    var i :| 0 <= i < |ds.prims[r].members| && ds.prims[r].members[i] == m;
    CollectedComplete(ds, sel, r, j, i);
  }

  /** The positions recorded for every listed relation after the selection `sel`. */
  function CollectedMap(ds: DataSet, sel: seq<PrimId>): (m: map<PrimId, seq<int>>)
    ensures m.Keys == Relations(ds, sel)
  {
    map r | r in Relations(ds, sel) :: Collected(ds, sel, r)
  }

  /** The positions held for `r`, none when it has no entry yet. */
  function PositionsOf(m: map<PrimId, seq<int>>, r: PrimId): seq<int> {
    if r in m then m[r] else []
  }

  /** The referrer `r` is a relation that the table lists: neither incomplete nor deleted. */
  predicate Listable(ds: DataSet, r: PrimId)
    requires r in ds.prims
  {
    r.kind == Relation && !ds.prims[r].incomplete && !ds.prims[r].deleted
  }

  /**
   * One referrer `r` of `primitive` handled: a listable relation gets the
   * positions of `primitive` in its member list appended, on first sight
   * to an empty entry; anything else is skipped.
   */
  function Step(m: map<PrimId, seq<int>>, ds: DataSet, primitive: PrimId, r: PrimId): map<PrimId, seq<int>>
    requires r in ds.prims
  {
    if Listable(ds, r) then m[r := PositionsOf(m, r) + MemberPositions(ds.prims[r].members, primitive)] else m
  }

  /** The referrers `rs` of `primitive` handled in turn. */
  function Steps(m: map<PrimId, seq<int>>, ds: DataSet, primitive: PrimId, rs: seq<PrimId>): map<PrimId, seq<int>>
    requires forall r :: r in rs ==> r in ds.prims
  {
    if rs == [] then m else Step(Steps(m, ds, primitive, rs[..|rs| - 1]), ds, primitive, rs[|rs| - 1])
  }

  /** Handling one more referrer is one more Step. */
  lemma StepsSnoc(m: map<PrimId, seq<int>>, ds: DataSet, primitive: PrimId, rs: seq<PrimId>, r: PrimId)
    requires forall x :: x in rs ==> x in ds.prims
    requires r in ds.prims
    ensures forall x :: x in rs + [r] ==> x in ds.prims
    ensures Steps(m, ds, primitive, rs + [r]) == Step(Steps(m, ds, primitive, rs), ds, primitive, r)
  {
    assert (rs + [r])[..|rs|] == rs;
  }

  /** No element occurs twice: each one is new to those before it. */
  predicate NoDuplicates<T(==)>(s: seq<T>) {
    s == [] || (s[|s| - 1] !in s[..|s| - 1] && NoDuplicates(s[..|s| - 1]))
  }

  /** A sequence extended by an element it does not hold keeps no duplicates. */
  lemma NoDuplicatesAppend<T>(s: seq<T>, x: T)
    requires NoDuplicates(s) && x !in s
    ensures NoDuplicates(s + [x])
    ensures forall y :: y in s + [x] <==> y in s || y == x
  {
    assert (s + [x])[..|s|] == s;
  }

  /**
   * After handling the distinct referrers `rs`, a relation has an entry if it
   * had one or is a listable one of them, and its positions are those it had
   * followed, if it is a listable one of them, by those of `primitive`.
   */
  lemma {:induction false} StepsAt(m: map<PrimId, seq<int>>, ds: DataSet, primitive: PrimId, rs: seq<PrimId>, k: PrimId)
    requires forall r :: r in rs ==> r in ds.prims
    requires NoDuplicates(rs)
    ensures k in Steps(m, ds, primitive, rs) <==> k in m || (k in rs && Listable(ds, k))
    ensures PositionsOf(Steps(m, ds, primitive, rs), k) ==
              if k in rs && Listable(ds, k) then PositionsOf(m, k) + MemberPositions(ds.prims[k].members, primitive)
              else PositionsOf(m, k)
  {
    if rs != [] {
      var front, r := rs[..|rs| - 1], rs[|rs| - 1];
      assert k in rs <==> k in front || k == r by {
        DropLastAppend(rs);
      }
      var mid := Steps(m, ds, primitive, front);
      StepsAt(m, ds, primitive, front, k);
      assert Steps(m, ds, primitive, rs) == Step(mid, ds, primitive, r);
      StepAt(mid, ds, primitive, r, k);
    }
  }

  /** One Step adds an entry for `r` at most, and appends to no other entry. */
  lemma StepAt(m: map<PrimId, seq<int>>, ds: DataSet, primitive: PrimId, r: PrimId, k: PrimId)
    requires r in ds.prims
    ensures k in Step(m, ds, primitive, r) <==> k in m || (k == r && Listable(ds, r))
    ensures PositionsOf(Step(m, ds, primitive, r), k) ==
              if k == r && Listable(ds, r) then PositionsOf(m, k) + MemberPositions(ds.prims[r].members, primitive)
              else PositionsOf(m, k)
  {
  }

  /**
   * Handling every referrer of `primitive`, each once and in any order,
   * turns the positions recorded for the selection `front` into those
   * recorded for `front + [primitive]`.
   */
  lemma StepsCollect(ds: DataSet, front: seq<PrimId>, primitive: PrimId, rs: seq<PrimId>)
    requires NoDuplicates(rs) && forall r :: r in rs <==> r in Referrers(ds, primitive)
    ensures Steps(CollectedMap(ds, front), ds, primitive, rs) == CollectedMap(ds, front + [primitive])
  {
    var sel := front + [primitive];
    assert sel[..|front|] == front;
    var before := CollectedMap(ds, front);
    var after := Steps(before, ds, primitive, rs);
    var whole := CollectedMap(ds, sel);
    forall k
      ensures k in after <==> k in whole
      ensures k in after ==> after[k] == whole[k]
    {
      StepsAt(before, ds, primitive, rs, k);
      if k in after && k !in before {
        NotListedNothingCollected(ds, front, k);
      }
    }
  }

  /** The roles recorded alongside the positions: the member found at each position. */
  ghost predicate RolesMatch(role: seq<Member>, position: seq<int>, members: seq<Member>) {
    && |role| == |position|
    && forall j :: 0 <= j < |position| ==> 1 <= position[j] <= |members| && role[j] == members[position[j] - 1]
  }
}
