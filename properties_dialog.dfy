/**
 * The properties dialog's view of a selection: for every tag key, how many
 * selected primitives carry each value; and for every relation the
 * selected primitives are members of, the roles and positions they hold.
 */
module PropertiesDialogs {
  import opened Wrappers
  import opened Text
  import opened Osm
  import opened PositionStrings
  import opened ValueCounts
  import opened Memberships

  /** The memberships of the selection in one relation, and their position text once computed. */
  class MemberInfo {
    var role: seq<Member>
    var position: seq<int>
    var positionString: Option<string>

    /** new MemberInfo(): no memberships, no position text yet. */
    constructor ()
      ensures role == [] && position == [] && positionString == None
    {
      role, position, positionString := [], [], None;
    }

    /** add: records a membership and its position; both lists grow together. */
    method Add(r: Member, p: int)
      modifies this
      ensures role == old(role) + [r] && position == old(position) + [p]
      ensures positionString == old(positionString)
      ensures |old(role)| == |old(position)| ==> |role| == |position|
    {
      role := role + [r];
      position := position + [p];
    }

    /**
     * getPositionString: the first time, sorts the positions and writes
     * them as runs (a gap written as "-"); later calls reuse the text. A
     * text longer than 20 characters is cut to 17 followed by "...", and
     * the cut text is what stays cached.
     */
    method GetPositionString() returns (s: string)
      requires positionString.Some? || |position| >= 1
      modifies this
      ensures role == old(role) && positionString == Some(s) && |s| <= 20
      ensures old(positionString).None? ==>
                position == SortAscending(old(position)) && s == Truncate(RenderAsWritten(position))
      ensures old(positionString).Some? ==>
                position == old(position) && s == Truncate(old(positionString).value)
    {
      if positionString.None? {
        position := SortAscending(position);
        var out := WritePositions(position);
        positionString := Some(out);
      }
      if |positionString.value| > 20 {
        positionString := Some(positionString.value[..17] + "...");
      }
      s := positionString.value;
    }

    /** Asking twice gives the same text: the second call reads the cache. */
    method GetPositionStringTwice() returns (first: string, second: string)
      requires positionString.Some? || |position| >= 1
      modifies this
      ensures first == second
    {
      first := GetPositionString();
      second := GetPositionString();
      TruncateIdempotent(first);
    }
  }

  /**
   * The state of the loop of getPositionString after the first `i`
   * positions: `out` holds the text up to the open run, which ends at `last`
   * and has `cnt` numbers after its first.
   */
  ghost predicate Writing(ps: seq<int>, i: int, out: string, last: int, cnt: int) {
    && 1 <= i <= |ps| && last == ps[i - 1] && cnt >= 0
    && out == Open(Runs(ps[..i]), '-')
    && LastRun(ps[..i]) == Run(last - cnt, last)
  }

  /** A number one past the last continues the open run. */
  lemma WritingExtend(ps: seq<int>, i: int, out: string, last: int, cnt: int)
    requires Writing(ps, i, out, last, cnt) && i < |ps| && ps[i] == last + 1
    ensures Writing(ps, i + 1, out, ps[i], cnt + 1)
  {
    OpenPrefixExtend(ps, i, '-');
  }

  /** Any other number closes the open run and opens a new one. */
  lemma WritingBreak(ps: seq<int>, i: int, out: string, last: int, cnt: int)
    requires Writing(ps, i, out, last, cnt) && i < |ps| && ps[i] != last + 1
    ensures Writing(ps, i + 1, out + Close(Run(last - cnt, last)) + ("-" + IntToString(ps[i])), ps[i], 0)
  {
    OpenPrefixBreak(ps, i, '-');
    ConcatAssociative(out + Close(Run(last - cnt, last)), "-", IntToString(ps[i]));
  }

  /**
   * Writes the end of the open run, which ends at `last` and has `cnt`
   * numbers after its first: nothing for one number, ",last" for two and
   * "-last" for more (the same code closes a run inside and after the loop).
   */
  method CloseRun(out: string, last: int, cnt: int) returns (out': string)
    requires cnt >= 0
    ensures out' == out + Close(Run(last - cnt, last))
  {
    out' := out;
    if cnt == 1 {
      out' := out' + ("," + IntToString(last));
    } else if cnt > 1 {
      out' := out' + ("-" + IntToString(last));
    } else {
      assert out + Close(Run(last - cnt, last)) == out + [];
    }
  }

  /**
   * The loop of getPositionString over sorted positions: counts how far the
   * current run has got and writes each run when the next number does not
   * continue it, then writes the last run.
   */
  method WritePositions(ps: seq<int>) returns (out: string)
    requires |ps| >= 1
    ensures out == RenderAsWritten(ps)
  {
    out := IntToString(ps[0]);
    var cnt := 0;
    var last := ps[0];
    OpenFirst(ps, '-');
    var i := 1;
    while i < |ps|
      invariant Writing(ps, i, out, last, cnt)
    {
      var cur := ps[i];
      if cur == last + 1 {
        WritingExtend(ps, i, out, last, cnt);
        cnt := cnt + 1;
      } else {
        WritingBreak(ps, i, out, last, cnt);
        out := CloseRun(out, last, cnt);
        out := out + ("-" + IntToString(cur));
        cnt := 0;
      }
      last := cur;
      i := i + 1;
    }
    assert i == |ps|;
    out := CloseRun(out, last, cnt);
    OpenWhole(ps, '-');
  }

  /**
   * The first pass of selectionChanged over the tags: for every primitive
   * and every key it carries, one more for the key and one more for its
   * value under the key.
   */
  method CountValues(sel: seq<Tags>) returns (keyCount: map<string, int>, valueCount: map<string, map<string, int>>)
    ensures KeyCountsOf(keyCount, sel) && CountsOf(valueCount, sel)
  {
    keyCount, valueCount := map[], map[];
    var i := 0;
    while i < |sel|
      invariant 0 <= i <= |sel|
      invariant KeyCountsOf(keyCount, sel[..i]) && CountsOf(valueCount, sel[..i])
    {
      keyCount, valueCount := CountTags(keyCount, valueCount, sel[..i], sel[i]);
      assert sel[..i + 1] == sel[..i] + [sel[i]];
      i := i + 1;
    }
    assert sel[..i] == sel;
  }

  /**
   * The state of the first pass part way through the keys of `osm`: `done`
   * holds the keys already counted, `todo` the rest.
   */
  ghost predicate TagsCounted(kc: map<string, int>, vc: map<string, map<string, int>>, front: seq<Tags>,
                              osm: Tags, todo: set<string>, done: Tags)
  {
    && todo <= osm.Keys && done.Keys == osm.Keys - todo
    && (forall k :: k in done ==> done[k] == osm[k])
    && KeyCountsOf(kc, front + [done]) && CountsOf(vc, front + [done])
  }

  /** Counting one more key of `osm` keeps the state of the first pass. */
  lemma TagsCountedStep(kc: map<string, int>, vc: map<string, map<string, int>>, front: seq<Tags>,
                        osm: Tags, todo: set<string>, done: Tags, key: string)
    requires TagsCounted(kc, vc, front, osm, todo, done) && key in todo
    ensures var inner := if key in vc then vc[key] else map[];
            TagsCounted(kc[key := if key in kc then kc[key] + 1 else 1],
                        vc[key := inner[osm[key] := if osm[key] in inner then inner[osm[key]] + 1 else 1]],
                        front, osm, todo - {key}, done[key := osm[key]])
  {
    KeyCountsStep(kc, front, done, key, osm[key]);
    ValueCountsStep(vc, front, done, key, osm[key], if key in vc then vc[key] else map[]);
  }

  /** The body of the first pass for one primitive `osm`, key after key. */
  method CountTags(keyCount: map<string, int>, valueCount: map<string, map<string, int>>, front: seq<Tags>, osm: Tags)
    returns (kc: map<string, int>, vc: map<string, map<string, int>>)
    requires KeyCountsOf(keyCount, front) && CountsOf(valueCount, front)
    ensures KeyCountsOf(kc, front + [osm]) && CountsOf(vc, front + [osm])
  {
    kc, vc := keyCount, valueCount;
    var todo := osm.Keys;
    ghost var done: Tags := map[];
    CountsNoTags(kc, vc, front);
    while todo != {}
      invariant TagsCounted(kc, vc, front, osm, todo, done)
    {
      var key :| key in todo;
      var value := osm[key];
      TagsCountedStep(kc, vc, front, osm, todo, done, key);
      ghost var inner := if key in vc then vc[key] else map[];
      ghost var vc' := vc[key := inner[value := if value in inner then inner[value] + 1 else 1]];
      kc := kc[key := if key in kc then kc[key] + 1 else 1];
      if key in vc {
        var v := vc[key];
        v := v[value := if value in v then v[value] + 1 else 1];
        vc := vc[key := v];
      } else {
        var v: map<string, int> := map[];
        v := v[value := 1];
        vc := vc[key := v];
      }
      assert vc == vc';
      done := done[key := value];
      todo := todo - {key};
    }
    SameTags(done, osm);
  }

  /**
   * The second pass: sums the counts of each key and, when they fall short
   * of the selection size `n`, puts the shortfall under the empty value.
   */
  method FillShortfall(valueCount: map<string, map<string, int>>, n: int) returns (r: map<string, map<string, int>>)
    ensures r.Keys == valueCount.Keys
    ensures forall k :: k in valueCount ==> r[k] == Filled(valueCount[k], n)
  {
    r := valueCount;
    var todo := valueCount.Keys;
    while todo != {}
      invariant todo <= valueCount.Keys && r.Keys == valueCount.Keys
      invariant forall k :: k in valueCount ==> r[k] == if k in todo then valueCount[k] else Filled(valueCount[k], n)
    {
      var key :| key in todo;
      var m := r[key];
      var count := 0;
      var rest := m.Keys;
      while rest != {}
        invariant rest <= m.Keys && count + SumOver(m, rest) == Total(m)
      {
        var x :| x in rest;
        SumOverRemove(m, rest, x);
        count := count + m[x];
        rest := rest - {x};
      }
      if count < n {
        r := r[key := m["" := n - count]];
      }
      todo := todo - {key};
    }
  }

  /**
   * The loop over a relation's members in selectionChanged: every member
   * that is `k` is added to `mi` with its position, counted from 1.
   */
  method AddMemberships(mi: MemberInfo, members: seq<Member>, k: PrimId)
    modifies mi
    ensures mi.position == old(mi.position) + MemberPositions(members, k)
    ensures mi.positionString == old(mi.positionString)
    ensures RolesMatch(old(mi.role), old(mi.position), members) ==> RolesMatch(mi.role, mi.position, members)
  {
    ghost var role0, position0 := mi.role, mi.position;
    var i := 1;
    var j := 0;
    while j < |members|
      invariant 0 <= j <= |members| && i == j + 1
      invariant mi.position == position0 + MemberPositions(members[..j], k)
      invariant mi.positionString == old(mi.positionString)
      invariant RolesMatch(role0, position0, members) ==> RolesMatch(mi.role, mi.position, members)
    {
      var m := members[j];
      assert members[..j + 1][..j] == members[..j];
      if m.ref == k {
        mi.Add(m, i);
      }
      i := i + 1;
      j := j + 1;
    }
    assert members[..j] == members;
  }

  /** `mi` holds exactly the positions `expected` in `members`, and no text yet. */
  ghost predicate Holds(mi: MemberInfo, expected: seq<int>, members: seq<Member>)
    reads mi
  {
    mi.positionString == None && mi.position == expected && RolesMatch(mi.role, mi.position, members)
  }

  /** No MemberInfo serves two relations. */
  ghost predicate Distinct(roles: map<PrimId, MemberInfo>) {
    forall r1, r2 :: r1 in roles && r2 in roles && r1 != r2 ==> roles[r1] != roles[r2]
  }

  /**
   * `roles` has one distinct MemberInfo per relation of `expected`, holding
   * the positions given there and the member found at each.
   */
  ghost predicate Holding(roles: map<PrimId, MemberInfo>, expected: map<PrimId, seq<int>>, ds: DataSet)
    reads roles.Values
  {
    && roles.Keys == expected.Keys
    && (forall r :: r in roles ==> r in ds.prims && Holds(roles[r], expected[r], ds.prims[r].members))
    && Distinct(roles)
  }

  /**
   * What the membership pass has recorded after the selected primitives
   * `sel`: one distinct MemberInfo per listed relation, holding the
   * positions of the selected primitives in it and the member at each.
   */
  ghost predicate Recorded(roles: map<PrimId, MemberInfo>, ds: DataSet, sel: seq<PrimId>)
    reads roles.Values
  {
    Holding(roles, CollectedMap(ds, sel), ds)
  }

  /**
   * The membership pass of selectionChanged: for every selected primitive
   * and every referrer of it that is a relation neither incomplete nor
   * deleted, the relation's MemberInfo, new on first sight, records the
   * primitive's memberships.
   */
  method CollectMemberships(ds: DataSet, sel: seq<PrimId>) returns (roles: map<PrimId, MemberInfo>)
    ensures Recorded(roles, ds, sel)
    ensures forall r :: r in roles ==> fresh(roles[r])
  {
    roles := map[];
    var i := 0;
    while i < |sel|
      invariant 0 <= i <= |sel|
      invariant Recorded(roles, ds, sel[..i])
      invariant forall r :: r in roles ==> fresh(roles[r])
    {
      roles := RecordReferrers(roles, ds, sel[..i], sel[i]);
      assert sel[..i + 1] == sel[..i] + [sel[i]];
      i := i + 1;
    }
    assert sel[..i] == sel;
  }

  /**
   * The state of the membership pass for `primitive` part way through its
   * referrers: `done` lists those visited, once each, `todo` holds the rest,
   * and `expected` is what the visited ones add to the positions recorded
   * after `front`.
   */
  ghost predicate ReferrersVisited(ds: DataSet, front: seq<PrimId>, primitive: PrimId, todo: set<PrimId>,
                                   done: seq<PrimId>, expected: map<PrimId, seq<int>>)
  {
    && todo <= Referrers(ds, primitive)
    && (forall x :: x in Referrers(ds, primitive) <==> x in todo || x in done)
    && (forall x :: x in done ==> x !in todo)
    && NoDuplicates(done)
    && (forall x :: x in done ==> x in ds.prims)
    && expected == Steps(CollectedMap(ds, front), ds, primitive, done)
  }

  /** Visiting one more referrer. */
  lemma ReferrersVisitedStep(ds: DataSet, front: seq<PrimId>, primitive: PrimId, todo: set<PrimId>,
                             done: seq<PrimId>, expected: map<PrimId, seq<int>>, r: PrimId)
    requires ReferrersVisited(ds, front, primitive, todo, done, expected) && r in todo
    ensures r in ds.prims
    ensures ReferrersVisited(ds, front, primitive, todo - {r}, done + [r], Step(expected, ds, primitive, r))
  {
    StepsSnoc(CollectedMap(ds, front), ds, primitive, done, r);
    NoDuplicatesAppend(done, r);
  }

  /** Once every referrer is visited, the positions are those recorded after `front` and `primitive`. */
  lemma ReferrersVisitedEnd(ds: DataSet, front: seq<PrimId>, primitive: PrimId,
                            done: seq<PrimId>, expected: map<PrimId, seq<int>>)
    requires ReferrersVisited(ds, front, primitive, {}, done, expected)
    ensures expected == CollectedMap(ds, front + [primitive])
  {
    StepsCollect(ds, front, primitive, done);
  }

  /** The body of the membership pass for one selected primitive, referrer after referrer. */
  method RecordReferrers(roles: map<PrimId, MemberInfo>, ds: DataSet, front: seq<PrimId>, primitive: PrimId)
    returns (roles': map<PrimId, MemberInfo>)
    requires Recorded(roles, ds, front)
    modifies roles.Values
    ensures Recorded(roles', ds, front + [primitive])
    ensures forall r :: r in roles' ==> roles'[r] in roles.Values || fresh(roles'[r])
  {
    roles' := roles;
    var todo := Referrers(ds, primitive);
    ghost var done: seq<PrimId> := [];
    ghost var expected := CollectedMap(ds, front);
    while todo != {}
      invariant ReferrersVisited(ds, front, primitive, todo, done, expected)
      invariant Holding(roles', expected, ds)
      invariant forall o :: o in roles'.Values ==> o in roles.Values || fresh(o)
    {
      var r :| r in todo;
      ReferrersVisitedStep(ds, front, primitive, todo, done, expected, r);
      roles' := RecordReferrer(roles', ds, primitive, expected, r);
      expected := Step(expected, ds, primitive, r);
      done := done + [r];
      todo := todo - {r};
    }
    ReferrersVisitedEnd(ds, front, primitive, done, expected);
  }

  /** One referrer `r` of `primitive`: if it is a listable relation, its MemberInfo records the memberships. */
  method RecordReferrer(roles: map<PrimId, MemberInfo>, ds: DataSet, primitive: PrimId,
                        ghost expected: map<PrimId, seq<int>>, r: PrimId)
    returns (roles': map<PrimId, MemberInfo>)
    requires r in ds.prims && Holding(roles, expected, ds)
    modifies roles.Values
    ensures Holding(roles', Step(expected, ds, primitive, r), ds)
    ensures forall k :: k in roles' ==> (k in roles && roles'[k] == roles[k]) || fresh(roles'[k])
  {
    roles' := roles;
    if r.kind == Relation && !ds.prims[r].incomplete && !ds.prims[r].deleted {
      ghost var members := ds.prims[r].members;
      var mi: MemberInfo;
      if r in roles' {
        // putting back the MemberInfo already there leaves the map as it is
        mi := roles'[r];
      } else {
        mi := new MemberInfo();
        roles' := roles'[r := mi];
      }
      assert Holds(mi, PositionsOf(expected, r), members);
      assert Distinct(roles');
      AddMemberships(mi, ds.prims[r].members, primitive);
      ghost var after := expected[r := mi.position];
      forall k | k in roles'
        ensures k in ds.prims && Holds(roles'[k], after[k], ds.prims[k].members)
      {
        if k != r {
          assert roles'[k] == roles[k] != mi;
        }
      }
      assert roles'.Keys == after.Keys;
      assert Step(expected, ds, primitive, r) == after;
      assert forall k :: k in roles' ==> (k in roles && roles'[k] == roles[k]) || fresh(roles'[k]);
    }
  }

  /**
   * Every MemberInfo of a finished membership pass has at least one
   * position and no text yet, so the membership table may ask it for its
   * position string.
   */
  lemma RecordedReady(roles: map<PrimId, MemberInfo>, ds: DataSet, sel: seq<PrimId>)
    requires Recorded(roles, ds, sel)
    ensures forall r :: r in roles ==> roles[r].positionString.None? && |roles[r].position| >= 1
  {
    forall r | r in roles
      ensures |roles[r].position| >= 1
    {
      ListedHasPositions(ds, sel, r);
    }
  }

  /** The tags of the selected primitives, in the order of the selection. */
  function SelectionTags(ds: DataSet, sel: seq<PrimId>): (ts: seq<Tags>)
    requires forall p :: p in sel ==> p in ds.prims
    ensures |ts| == |sel| && forall i :: 0 <= i < |sel| ==> ts[i] == ds.prims[sel[i]].tags
  {
    if sel == [] then [] else SelectionTags(ds, sel[..|sel| - 1]) + [ds.prims[sel[|sel| - 1]].tags]
  }

  /** The properties dialog: the value counts behind its tag table. */
  class PropertiesDialog {
    /** For every key of the selection, its values with the number of primitives carrying each. */
    var valueCount: map<string, map<string, int>>

    constructor()
      ensures valueCount == map[]
    {
      valueCount := map[];
    }

    /**
     * selectionChanged: recounts the tags of the new selection, where a key
     * that not every primitive carries gets the shortfall under the empty
     * value, and collects the memberships of the selected primitives.
     */
    method SelectionChanged(ds: DataSet, newSelection: seq<PrimId>) returns (roles: map<PrimId, MemberInfo>)
      requires forall p :: p in newSelection ==> p in ds.prims
      modifies this
      ensures forall k :: k in valueCount <==> KeyOcc(SelectionTags(ds, newSelection), k) > 0
      ensures forall k :: k in valueCount ==>
                valueCount[k] == Filled(ValueMap(SelectionTags(ds, newSelection), k), |newSelection|)
      ensures Recorded(roles, ds, newSelection)
      ensures forall r :: r in roles ==> fresh(roles[r])
    {
      var tags := SelectionTags(ds, newSelection);
      var keyCount, counts := CountValues(tags);
      forall k | k in counts
        ensures counts[k] == ValueMap(tags, k)
      {
        CountsAreValueMap(counts, tags, k);
      }
      valueCount := FillShortfall(counts, |newSelection|);
      roles := CollectMemberships(ds, newSelection);
    }
  }
}
