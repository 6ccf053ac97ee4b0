/**
 * The list model behind the changeset dialogs: a list of changesets sorted by
 * descending id, built from ids, primitives or a dataset, plus a selection
 * of list indices that survives rebuilds and cache events.
 *
 * Changesets are equal when their ids are equal; every lookup in the list is
 * by id.
 */
module ChangesetList {
  import opened Wrappers
  import opened Osm

  /** A changeset: its id, whether its details are still missing, and those details. */
  datatype Changeset = Changeset(id: int, incomplete: bool, details: map<string, string>)

  /** `new Changeset(id)`: a changeset known only by its id. */
  function NewChangeset(id: int): (c: Changeset)
    ensures c.id == id && c.incomplete && c.details == map[]
  {
    Changeset(id, true, map[])
  }

  /** The ids of a list of changesets, position by position. */
  function Ids(s: seq<Changeset>): (ids: seq<int>)
    ensures |ids| == |s| && forall i :: 0 <= i < |s| ==> ids[i] == s[i].id
  {
    seq(|s|, i requires 0 <= i < |s| => s[i].id)
  }

  /** No two entries share an id (as in the hash sets the list is built from). */
  predicate DistinctIds(s: seq<Changeset>) {
    forall i, j :: 0 <= i < j < |s| ==> s[i].id != s[j].id
  }

  /** The order sort() establishes: ids do not increase along the list. */
  predicate SortedById(s: seq<Changeset>) {
    forall i, j :: 0 <= i < j < |s| ==> s[i].id >= s[j].id
  }

  /** Changeset.mergeFrom copies details only between changesets of the same id, so it keeps the id. */
  ghost predicate KeepsId(mergeFrom: (Changeset, Changeset) -> Changeset) {
    forall a, b :: mergeFrom(a, b).id == a.id
  }

  /** List.indexOf by id: the first index holding id `id`, or -1. */
  function IndexOf(data: seq<Changeset>, id: int): (r: int)
    ensures -1 <= r < |data|
    ensures r >= 0 ==> data[r].id == id && forall j :: 0 <= j < r ==> data[j].id != id
    ensures r == -1 ==> forall j :: 0 <= j < |data| ==> data[j].id != id
  {
    if data == [] then -1
    else if data[0].id == id then 0
    else
      var k := IndexOf(data[1..], id);
      if k < 0 then -1 else k + 1
  }

  /** With distinct ids, the entry at index `i` is found exactly by its own id. */
  lemma IndexOfDistinct(data: seq<Changeset>, i: int, id: int)
    requires DistinctIds(data) && 0 <= i < |data|
    ensures IndexOf(data, id) == i <==> data[i].id == id
  {
  }

  /**
   * The sorted insertion used by sort(): `c` goes after every entry whose id
   * is at least its own, so entries with equal ids keep their order.
   */
  function InsertById(s: seq<Changeset>, c: Changeset): (r: seq<Changeset>)
    requires SortedById(s)
    ensures SortedById(r) && multiset(r) == multiset(s) + multiset{c}
    ensures |r| == |s| + 1
  {
    if s == [] || s[0].id < c.id then [c] + s
    else
      var rest := InsertById(s[1..], c);
      assert s == [s[0]] + s[1..];
      HeadStaysFirst(s, c, rest);
      [s[0]] + rest
  }

  /** Putting the head of a sorted list before the insertion into its tail keeps the order. */
  lemma HeadStaysFirst(s: seq<Changeset>, c: Changeset, rest: seq<Changeset>)
    requires SortedById(s) && s != [] && s[0].id >= c.id
    requires SortedById(rest) && multiset(rest) == multiset(s[1..]) + multiset{c}
    ensures SortedById([s[0]] + rest)
  {
    forall j | 0 <= j < |rest| ensures s[0].id >= rest[j].id {
      assert rest[j] in multiset(rest);
      if rest[j] != c {
        assert rest[j] in s[1..];
      }
    }
  }

  /**
   * sort(): orders the list by descending id, as Collections.sort with the
   * list model's comparator does.
   */
  method SortById(s: seq<Changeset>) returns (t: seq<Changeset>)
    ensures SortedById(t) && multiset(t) == multiset(s)
  {
    t := [];
    for i := 0 to |s|
      invariant SortedById(t) && multiset(t) == multiset(s[..i])
    {
      t := InsertById(t, s[i]);
      assert s[..i + 1] == s[..i] + [s[i]];
    }
    assert s[..|s|] == s;
  }

  /** A permutation of a list with distinct ids has distinct ids. */
  lemma PermutationKeepsDistinct(s: seq<Changeset>, t: seq<Changeset>)
    requires multiset(s) == multiset(t) && DistinctIds(s)
    ensures DistinctIds(t)
  {
    forall i, j | 0 <= i < j < |t| ensures t[i].id != t[j].id {
      assert t[i] in multiset(s) && t[j] in multiset(s);
      var a :| 0 <= a < |s| && s[a] == t[i];
      var b :| 0 <= b < |s| && s[b] == t[j];
      SingleOccurrence(s, a);
      assert t == t[..j] + t[j..];
      assert t[i] in t[..j] && t[j] in t[j..];
      assert multiset(t)[t[j]] == multiset(t[..j])[t[j]] + multiset(t[j..])[t[j]];
      if a == b {
        assert false;
      }
    }
  }

  /** In a list with distinct ids, each entry occurs once. */
  lemma SingleOccurrence(s: seq<Changeset>, a: int)
    requires DistinctIds(s) && 0 <= a < |s|
    ensures multiset(s)[s[a]] == 1
  {
    assert s == s[..a] + [s[a]] + s[a + 1..];
    assert s[a] !in s[..a];
    assert s[a] !in s[a + 1..];
  }

  /** The entry setChangesets keeps for `c`: merged with the cache's copy when that copy differs. */
  function Refreshed(c: Changeset, cache: map<int, Changeset>, mergeFrom: (Changeset, Changeset) -> Changeset): Changeset {
    if c.id in cache && cache[c.id] != c then mergeFrom(c, cache[c.id]) else c
  }

  /** The loop of setChangesets that refreshes every entry from the changeset cache. */
  method RefreshFromCache(s: seq<Changeset>, cache: map<int, Changeset>, mergeFrom: (Changeset, Changeset) -> Changeset)
    returns (t: seq<Changeset>)
    requires KeepsId(mergeFrom)
    ensures |t| == |s| && Ids(t) == Ids(s)
    ensures forall i :: 0 <= i < |s| ==> t[i] == Refreshed(s[i], cache, mergeFrom)
  {
    t := s;
    for i := 0 to |s|
      invariant |t| == |s|
      invariant forall j :: 0 <= j < i ==> t[j] == Refreshed(s[j], cache, mergeFrom)
      invariant forall j :: i <= j < |s| ==> t[j] == s[j]
    {
      if s[i].id in cache && cache[s[i].id] != s[i] {
        t := t[i := mergeFrom(s[i], cache[s[i].id])];
      }
    }
  }

  /** The changesets of the given ids, one per positive id (the hash set of initFromChangesetIds). */
  method ChangesetsOfIds(ids: seq<int>) returns (cs: seq<Changeset>)
    ensures DistinctIds(cs)
    ensures forall id :: id in Ids(cs) <==> id in ids && id > 0
    ensures forall i :: 0 <= i < |cs| ==> cs[i] == NewChangeset(cs[i].id)
  {
    cs := [];
    for k := 0 to |ids|
      invariant DistinctIds(cs)
      invariant forall id :: id in Ids(cs) <==> id in ids[..k] && id > 0
      invariant forall i :: 0 <= i < |cs| ==> cs[i] == NewChangeset(cs[i].id)
    {
      var id := ids[k];
      assert ids[..k + 1] == ids[..k] + [id];
      if id <= 0 {
        continue;
      }
      if IndexOf(cs, id) < 0 {
        cs := cs + [NewChangeset(id)];
        assert Ids(cs) == Ids(cs[..|cs| - 1]) + [id];
      }
    }
    assert ids[..|ids|] == ids;
  }

  /** The changeset ids of a list of primitives, as collected by initFromPrimitives. */
  function ChangesetIdsOf(ps: seq<Prim>): (ids: seq<int>)
    ensures |ids| == |ps| && forall i :: 0 <= i < |ps| ==> ids[i] == ps[i].changesetId
  {
    seq(|ps|, i requires 0 <= i < |ps| => ps[i].changesetId)
  }

  /** getNodes / getWays / getRelations: the primitives of one kind, in the dataset's order. */
  function PrimsOfKind(ds: DataSet, kind: Kind): (ps: seq<Prim>)
    requires ds.Valid()
    ensures forall p :: p in ps <==> exists k :: k in ds.prims && k.kind == kind && ds.prims[k] == p
  {
    PrimsOfKindIn(ds, ds.order, kind)
  }

  /** The primitives of one kind among those listed in `order`. */
  function PrimsOfKindIn(ds: DataSet, order: seq<PrimId>, kind: Kind): (ps: seq<Prim>)
    requires forall k :: k in order ==> k in ds.prims
    ensures forall p :: p in ps <==> exists k :: k in order && k.kind == kind && ds.prims[k] == p
  {
    if order == [] then []
    else
      var rest := PrimsOfKindIn(ds, order[1..], kind);
      assert forall k :: k in order <==> k == order[0] || k in order[1..];
      if order[0].kind == kind then [ds.prims[order[0]]] + rest else rest
  }

  class ChangesetListModel {
    /** The list entries. */
    var data: seq<Changeset>
    /** The selected list indices (the Swing selection model). */
    var selection: set<int>
    /** Changeset.mergeFrom(other): this changeset after copying other's details. */
    const mergeFrom: (Changeset, Changeset) -> Changeset

    ghost predicate Valid()
      reads this
    {
      DistinctIds(data) && SortedById(data) && KeepsId(mergeFrom)
    }

    constructor (mergeFrom: (Changeset, Changeset) -> Changeset)
      requires KeepsId(mergeFrom)
      ensures Valid() && data == [] && selection == {} && this.mergeFrom == mergeFrom
    {
      data := [];
      selection := {};
      this.mergeFrom := mergeFrom;
    }

    /** The ids of the entries at selected indices; indices beyond the list are ignored. */
    function SelectedIds(): (ids: set<int>)
      reads this
      ensures forall id :: id in ids <==> exists i :: 0 <= i < |data| && i in selection && data[i].id == id
    {
      set i | 0 <= i < |data| && i in selection :: data[i].id
    }

    /** getSelectedChangesets */
    method GetSelectedChangesets() returns (r: set<Changeset>)
      ensures forall c :: c in r <==> exists i :: 0 <= i < |data| && i in selection && data[i] == c
    {
      r := {};
      for i := 0 to |data|
        invariant forall c :: c in r <==> exists j :: 0 <= j < i && j in selection && data[j] == c
      {
        if i in selection {
          r := r + {data[i]};
        }
      }
    }

    /** getSelectedChangesetIds: exactly the ids of the entries at selected indices. */
    method GetSelectedChangesetIds() returns (r: set<int>)
      ensures r == SelectedIds()
    {
      r := {};
      for i := 0 to |data|
        invariant forall id :: id in r <==> exists j :: 0 <= j < i && j in selection && data[j].id == id
      {
        if i in selection {
          r := r + {data[i].id};
        }
      }
      assert forall id :: id in r <==> id in SelectedIds();
    }

    /**
     * setSelectedChangesets: clear the selection, then select the index of
     * every given changeset that is in the list; `None` (null) leaves the
     * selection empty.
     */
    method SetSelectedChangesets(changesets: Option<set<Changeset>>)
      requires Valid()
      modifies this
      ensures Valid() && data == old(data)
      ensures changesets.None? ==> selection == {}
      ensures changesets.Some? ==>
                forall i :: i in selection <==> 0 <= i < |data| && exists c :: c in changesets.value && c.id == data[i].id
    {
      selection := {};
      if changesets.None? {
        return;
      }
      var sel := SelectIndices(data, changesets.value);
      selection := sel;
    }

    /**
     * setChangesets: remember the selected changesets, replace the list by
     * the given changesets refreshed from the cache and sorted by descending
     * id, and select again those remembered changesets still in the list.
     * `None` (null) empties the list and leaves the selection model as it was.
     */
    method SetChangesets(changesets: Option<seq<Changeset>>, cache: map<int, Changeset>)
      requires Valid()
      requires changesets.Some? ==> DistinctIds(changesets.value)
      modifies this
      ensures Valid()
      ensures changesets.None? ==> data == [] && selection == old(selection)
      ensures changesets.Some? ==>
                multiset(data) == multiset(seq(|changesets.value|, i requires 0 <= i < |changesets.value| =>
                                                 Refreshed(changesets.value[i], cache, mergeFrom)))
      ensures changesets.Some? ==> forall i :: i in selection <==> 0 <= i < |data| && data[i].id in old(SelectedIds())
    {
      var sel := GetSelectedChangesets();
      ghost var selectedIds := SelectedIds();
      assert forall id :: id in selectedIds <==> exists c :: c in sel && c.id == id;
      if changesets.None? {
        data := [];
        return;
      }
      var refreshed := RefreshFromCache(changesets.value, cache, mergeFrom);
      var sorted := SortById(refreshed);
      assert DistinctIds(refreshed) by {
        assert forall i :: 0 <= i < |refreshed| ==> refreshed[i].id == Ids(refreshed)[i] == Ids(changesets.value)[i];
      }
      PermutationKeepsDistinct(refreshed, sorted);
      data := sorted;
      assert refreshed == seq(|changesets.value|, i requires 0 <= i < |changesets.value| =>
                                Refreshed(changesets.value[i], cache, mergeFrom));
      SetSelectedChangesets(Some(sel));
    }

    /** initFromChangesetIds: a list of the positive ids; `None` (null) or no ids empties the list. */
    method InitFromChangesetIds(ids: Option<seq<int>>, cache: map<int, Changeset>)
      requires Valid()
      modifies this
      ensures Valid()
      ensures ids.None? || ids.value == [] ==> data == [] && selection == old(selection)
      ensures ids.Some? ==> forall id :: id in Ids(data) <==> id in ids.value && id > 0
      ensures ids.Some? ==> forall i :: 0 <= i < |data| ==> data[i] == Refreshed(NewChangeset(data[i].id), cache, mergeFrom)
      ensures ids.Some? && ids.value != [] ==>
                forall i :: i in selection <==> 0 <= i < |data| && data[i].id in old(SelectedIds())
    {
      if ids.None? || ids.value == [] {
        SetChangesets(None, cache);
        return;
      }
      var changesets := ChangesetsOfIds(ids.value);
      SetChangesets(Some(changesets), cache);
      IdsOfPermutation(data, changesets, cache, mergeFrom);
      EntriesRefreshedNew(data, changesets, cache, mergeFrom);
    }

    /** initFromPrimitives: one changeset per positive changeset id among the primitives. */
    method InitFromPrimitives(primitives: Option<seq<Prim>>, cache: map<int, Changeset>)
      requires Valid()
      modifies this
      ensures Valid()
      ensures primitives.None? ==> data == [] && selection == old(selection)
      ensures primitives.Some? ==>
                forall id :: id in Ids(data) <==> id > 0 && exists p :: p in primitives.value && p.changesetId == id
      ensures primitives.Some? ==>
                forall i :: 0 <= i < |data| ==> data[i] == Refreshed(NewChangeset(data[i].id), cache, mergeFrom)
      ensures primitives.Some? ==>
                forall i :: i in selection <==> 0 <= i < |data| && data[i].id in old(SelectedIds())
    {
      if primitives.None? {
        SetChangesets(None, cache);
        return;
      }
      var changesets := ChangesetsOfIds(ChangesetIdsOf(primitives.value));
      SetChangesets(Some(changesets), cache);
      IdsOfPermutation(data, changesets, cache, mergeFrom);
      EntriesRefreshedNew(data, changesets, cache, mergeFrom);
      forall id | id in ChangesetIdsOf(primitives.value)
        ensures exists p :: p in primitives.value && p.changesetId == id
      {
        var i :| 0 <= i < |primitives.value| && ChangesetIdsOf(primitives.value)[i] == id;
        assert primitives.value[i] in primitives.value;
      }
    }

    /** initFromDataSet: one changeset per positive changeset id among the nodes, ways and relations. */
    method InitFromDataSet(ds: Option<DataSet>, cache: map<int, Changeset>)
      requires Valid()
      requires ds.Some? ==> ds.value.Valid()
      modifies this
      ensures Valid()
      ensures ds.None? ==> data == [] && selection == old(selection)
      ensures ds.Some? ==>
                forall id :: id in Ids(data) <==> id > 0 && exists k :: k in ds.value.prims && ds.value.prims[k].changesetId == id
      ensures ds.Some? ==> forall i :: 0 <= i < |data| ==> data[i] == Refreshed(NewChangeset(data[i].id), cache, mergeFrom)
      ensures ds.Some? ==> forall i :: i in selection <==> 0 <= i < |data| && data[i].id in old(SelectedIds())
    {
      if ds.None? {
        SetChangesets(None, cache);
        return;
      }
      var ps := PrimsOfKind(ds.value, Node) + PrimsOfKind(ds.value, Way) + PrimsOfKind(ds.value, Relation);
      var changesets := ChangesetsOfIds(ChangesetIdsOf(ps));
      SetChangesets(Some(changesets), cache);
      IdsOfPermutation(data, changesets, cache, mergeFrom);
      EntriesRefreshedNew(data, changesets, cache, mergeFrom);
      forall id ensures id in ChangesetIdsOf(ps) <==> exists k :: k in ds.value.prims && ds.value.prims[k].changesetId == id {
        if id in ChangesetIdsOf(ps) {
          var i :| 0 <= i < |ps| && ChangesetIdsOf(ps)[i] == id;
          assert ps[i] in ps;
        }
        if exists k :: k in ds.value.prims && ds.value.prims[k].changesetId == id {
          var k :| k in ds.value.prims && ds.value.prims[k].changesetId == id;
          var p := ds.value.prims[k];
          assert p in PrimsOfKind(ds.value, k.kind);
          assert p in ps;
          var i :| 0 <= i < |ps| && ps[i] == p;
          assert ChangesetIdsOf(ps)[i] == id;
        }
      }
    }

    /**
     * changesetCacheUpdated: merge added and updated changesets into the
     * entries of the same id, replace the entries of removed changesets by a
     * fresh changeset of the same id, and select again what was selected.
     */
    method ChangesetCacheUpdated(added: seq<Changeset>, updated: seq<Changeset>, removed: seq<Changeset>)
      requires Valid()
      modifies this
      ensures Valid()
      ensures |data| == |old(data)| && Ids(data) == Ids(old(data))
      ensures forall i :: 0 <= i < |data| ==> data[i] == CacheEventEntry(old(data[i]), added, updated, removed, mergeFrom)
      ensures forall i :: i in selection <==> 0 <= i < |data| && i in old(selection)
    {
      var sel := GetSelectedChangesets();
      var updatedData := ApplyCacheEvent(data, added, updated, removed, mergeFrom);
      ReselectSameIds(data, updatedData, selection, sel);
      data := updatedData;
      SetSelectedChangesets(Some(sel));
    }
  }

  /** The list after a cache event: the three loops of changesetCacheUpdated. */
  method ApplyCacheEvent(data: seq<Changeset>, added: seq<Changeset>, updated: seq<Changeset>, removed: seq<Changeset>,
                         mergeFrom: (Changeset, Changeset) -> Changeset)
    returns (r: seq<Changeset>)
    requires KeepsId(mergeFrom) && DistinctIds(data) && SortedById(data)
    ensures |r| == |data| && Ids(r) == Ids(data) && DistinctIds(r) && SortedById(r)
    ensures forall i :: 0 <= i < |data| && (exists c :: c in removed && c.id == data[i].id) ==>
              r[i] == NewChangeset(data[i].id)
    ensures forall i :: 0 <= i < |data| && (forall c :: c in added + updated + removed ==> c.id != data[i].id) ==>
              r[i] == data[i]
    ensures forall i :: 0 <= i < |data| ==> r[i] == CacheEventEntry(data[i], added, updated, removed, mergeFrom)
  {
    var afterAdded := MergeEvents(data, added, mergeFrom);
    var afterUpdated := MergeEvents(afterAdded, updated, mergeFrom);
    BothEventLoops(data, afterAdded, afterUpdated, added, updated, mergeFrom);
    r := ReplaceRemoved(afterUpdated, removed);
    SameIdsSameOrder(data, r);
    forall i | 0 <= i < |data| ensures r[i] == CacheEventEntry(data[i], added, updated, removed, mergeFrom) {
      if data[i].id in Ids(removed) {
        var j :| 0 <= j < |removed| && Ids(removed)[j] == data[i].id;
        assert removed[j] in removed;
      }
    }
  }

  /**
   * The entry a cache event leaves for `c`: a changeset known only by its id
   * when its id was removed, else `c` with the added and then the updated
   * changesets of its id merged in.
   */
  function CacheEventEntry(c: Changeset, added: seq<Changeset>, updated: seq<Changeset>, removed: seq<Changeset>,
                           mergeFrom: (Changeset, Changeset) -> Changeset): Changeset {
    if c.id in Ids(removed) then NewChangeset(c.id)
    else MergedEvents(MergedEvents(c, added, mergeFrom), updated, mergeFrom)
  }

  /** A cache event about other ids leaves an entry as it is. */
  lemma CacheEventUnrelated(c: Changeset, added: seq<Changeset>, updated: seq<Changeset>, removed: seq<Changeset>,
                            mergeFrom: (Changeset, Changeset) -> Changeset)
    requires forall e :: e in added + updated + removed ==> e.id != c.id
    ensures CacheEventEntry(c, added, updated, removed, mergeFrom) == c
  {
    assert forall e :: e in added ==> e in added + updated + removed;
    assert forall e :: e in updated ==> e in added + updated + removed;
    MergedEventsUnrelated(c, added, mergeFrom);
    MergedEventsUnrelated(c, updated, mergeFrom);
  }

  /** Distinct ids and the order by id depend only on the ids, position by position. */
  lemma SameIdsSameOrder(a: seq<Changeset>, b: seq<Changeset>)
    requires Ids(a) == Ids(b)
    ensures forall i :: 0 <= i < |a| ==> a[i].id == b[i].id
    ensures DistinctIds(a) <==> DistinctIds(b)
    ensures SortedById(a) <==> SortedById(b)
  {
    assert forall i :: 0 <= i < |a| ==> a[i].id == Ids(a)[i] == Ids(b)[i] == b[i].id;
  }

  /**
   * After the added-changeset loop and then the updated-changeset loop on a
   * list with distinct ids, every entry has the events of its id merged in,
   * added ones first.
   */
  lemma BothEventLoops(data: seq<Changeset>, afterAdded: seq<Changeset>, afterUpdated: seq<Changeset>,
                       added: seq<Changeset>, updated: seq<Changeset>, mergeFrom: (Changeset, Changeset) -> Changeset)
    requires DistinctIds(data)
    requires |afterAdded| == |data| && Ids(afterAdded) == Ids(data)
    requires forall i :: 0 <= i < |data| ==>
               afterAdded[i] == if IndexOf(data, data[i].id) == i then MergedEvents(data[i], added, mergeFrom) else data[i]
    requires |afterUpdated| == |afterAdded| && Ids(afterUpdated) == Ids(afterAdded)
    requires forall i :: 0 <= i < |afterAdded| ==>
               afterUpdated[i] == if IndexOf(afterAdded, afterAdded[i].id) == i
                                  then MergedEvents(afterAdded[i], updated, mergeFrom) else afterAdded[i]
    ensures DistinctIds(afterUpdated)
    ensures forall i :: 0 <= i < |data| ==>
              afterUpdated[i] == MergedEvents(MergedEvents(data[i], added, mergeFrom), updated, mergeFrom)
    ensures forall i :: 0 <= i < |data| && (forall c :: c in added + updated ==> c.id != data[i].id) ==>
              afterUpdated[i] == data[i]
  {
    assert forall i :: 0 <= i < |data| ==> afterAdded[i].id == Ids(afterAdded)[i] == Ids(data)[i] == data[i].id;
    assert forall i :: 0 <= i < |data| ==> afterUpdated[i].id == Ids(afterUpdated)[i] == Ids(data)[i];
    forall i | 0 <= i < |data|
      ensures afterUpdated[i] == MergedEvents(MergedEvents(data[i], added, mergeFrom), updated, mergeFrom)
    {
      IndexOfDistinct(data, i, data[i].id);
      IndexOfDistinct(afterAdded, i, afterAdded[i].id);
    }
    forall i | 0 <= i < |data| && (forall c :: c in added + updated ==> c.id != data[i].id)
      ensures afterUpdated[i] == data[i]
    {
      MergedEventsUnrelated(data[i], added, mergeFrom);
      MergedEventsUnrelated(data[i], updated, mergeFrom);
    }
  }

  /**
   * When the ids stay in place, selecting the indices whose id belongs to a
   * selected changeset selects the same indices again.
   */
  lemma ReselectSameIds(before: seq<Changeset>, after: seq<Changeset>, selection: set<int>, sel: set<Changeset>)
    requires Ids(before) == Ids(after) && DistinctIds(before)
    requires forall c :: c in sel <==> exists i :: 0 <= i < |before| && i in selection && before[i] == c
    ensures forall i :: (0 <= i < |after| && exists c :: c in sel && c.id == after[i].id) <==>
              0 <= i < |after| && i in selection
  {
    forall i | 0 <= i < |after| && (exists c :: c in sel && c.id == after[i].id) ensures i in selection {
      var c :| c in sel && c.id == after[i].id;
      var j :| 0 <= j < |before| && j in selection && before[j] == c;
      assert Ids(before)[j] == Ids(before)[i];
    }
    forall i | 0 <= i < |after| && i in selection ensures exists c :: c in sel && c.id == after[i].id {
      assert before[i] in sel;
      assert Ids(after)[i] == Ids(before)[i];
    }
  }

  /** The list setChangesets keeps has the ids of the changesets it was given. */
  lemma IdsOfPermutation(data: seq<Changeset>, changesets: seq<Changeset>, cache: map<int, Changeset>,
                         mergeFrom: (Changeset, Changeset) -> Changeset)
    requires KeepsId(mergeFrom)
    requires multiset(data) == multiset(seq(|changesets|, i requires 0 <= i < |changesets| =>
                                              Refreshed(changesets[i], cache, mergeFrom)))
    ensures forall id :: id in Ids(data) <==> id in Ids(changesets)
  {
    var r := seq(|changesets|, i requires 0 <= i < |changesets| => Refreshed(changesets[i], cache, mergeFrom));
    forall id ensures id in Ids(data) <==> id in Ids(changesets) {
      if id in Ids(data) {
        var i :| 0 <= i < |data| && Ids(data)[i] == id;
        assert data[i] in multiset(r);
        var j :| 0 <= j < |r| && r[j] == data[i];
        assert Ids(changesets)[j] == id;
      }
      if id in Ids(changesets) {
        var j :| 0 <= j < |changesets| && Ids(changesets)[j] == id;
        assert r[j] in multiset(data);
        var i :| 0 <= i < |data| && data[i] == r[j];
        assert Ids(data)[i] == id;
      }
    }
  }

  /** The list setChangesets keeps from changesets known only by their ids holds those refreshed from the cache. */
  lemma EntriesRefreshedNew(data: seq<Changeset>, changesets: seq<Changeset>, cache: map<int, Changeset>,
                            mergeFrom: (Changeset, Changeset) -> Changeset)
    requires KeepsId(mergeFrom)
    requires forall i :: 0 <= i < |changesets| ==> changesets[i] == NewChangeset(changesets[i].id)
    requires multiset(data) == multiset(seq(|changesets|, i requires 0 <= i < |changesets| =>
                                              Refreshed(changesets[i], cache, mergeFrom)))
    ensures forall i :: 0 <= i < |data| ==> data[i] == Refreshed(NewChangeset(data[i].id), cache, mergeFrom)
  {
    var r := seq(|changesets|, i requires 0 <= i < |changesets| => Refreshed(changesets[i], cache, mergeFrom));
    forall i | 0 <= i < |data| ensures data[i] == Refreshed(NewChangeset(data[i].id), cache, mergeFrom) {
      assert data[i] in multiset(r);
      var j :| 0 <= j < |r| && r[j] == data[i];
    }
  }

  /** The indices setSelectedChangesets selects: the index of every given changeset found in the list. */
  method SelectIndices(data: seq<Changeset>, changesets: set<Changeset>) returns (sel: set<int>)
    requires DistinctIds(data)
    ensures forall i :: i in sel <==> 0 <= i < |data| && exists c :: c in changesets && c.id == data[i].id
  {
    sel := {};
    var left := changesets;
    while left != {}
      invariant left <= changesets
      invariant forall i :: i in sel <==> 0 <= i < |data| && exists c :: c in changesets - left && c.id == data[i].id
      decreases |left|
    {
      var c :| c in left;
      var idx := IndexOf(data, c.id);
      if idx >= 0 {
        sel := sel + {idx};
      }
      forall i | 0 <= i < |data| ensures IndexOf(data, c.id) == i <==> data[i].id == c.id {
        IndexOfDistinct(data, i, c.id);
      }
      left := left - {c};
    }
  }

  /**
   * The entry `c` after the events `events`, in order: each event with its
   * id is merged into it when it differs from the entry at that point.
   */
  function MergedEvents(c: Changeset, events: seq<Changeset>, mergeFrom: (Changeset, Changeset) -> Changeset): Changeset {
    if events == [] then c
    else
      var before := MergedEvents(c, events[..|events| - 1], mergeFrom);
      var e := events[|events| - 1];
      if e.id == c.id && before != e then mergeFrom(before, e) else before
  }

  /** Events about other ids leave an entry as it is. */
  lemma {:induction false} MergedEventsUnrelated(c: Changeset, events: seq<Changeset>,
                                                 mergeFrom: (Changeset, Changeset) -> Changeset)
    requires forall e :: e in events ==> e.id != c.id
    ensures MergedEvents(c, events, mergeFrom) == c
  {
    if events != [] {
      assert forall e :: e in events[..|events| - 1] ==> e in events;
      MergedEventsUnrelated(c, events[..|events| - 1], mergeFrom);
    }
  }

  /** An entry matched by exactly one event `events[j]` is merged from it, unless it already equals it. */
  lemma {:induction false} MergedEventsSingle(c: Changeset, events: seq<Changeset>, j: int,
                                              mergeFrom: (Changeset, Changeset) -> Changeset)
    requires 0 <= j < |events| && events[j].id == c.id
    requires forall i :: 0 <= i < |events| && i != j ==> events[i].id != c.id
    ensures MergedEvents(c, events, mergeFrom) == if c != events[j] then mergeFrom(c, events[j]) else c
  {
    var init := events[..|events| - 1];
    if j == |events| - 1 {
      assert forall e :: e in init ==> e.id != c.id;
      MergedEventsUnrelated(c, init, mergeFrom);
    } else {
      MergedEventsSingle(c, init, j, mergeFrom);
    }
  }

  /** With the same ids position by position, the first index of an id is the same. */
  lemma IndexOfSameIds(a: seq<Changeset>, b: seq<Changeset>, id: int)
    requires Ids(a) == Ids(b)
    ensures IndexOf(a, id) == IndexOf(b, id)
  {
    assert forall i :: 0 <= i < |a| ==> a[i].id == Ids(a)[i] == Ids(b)[i] == b[i].id;
  }

  /**
   * The added- or updated-changeset loop of changesetCacheUpdated: the first
   * entry of each id has the events of that id merged into it, in order;
   * every other entry is left as it is.
   */
  method MergeEvents(data: seq<Changeset>, events: seq<Changeset>, mergeFrom: (Changeset, Changeset) -> Changeset)
    returns (r: seq<Changeset>)
    requires KeepsId(mergeFrom)
    ensures |r| == |data| && Ids(r) == Ids(data)
    ensures forall i :: 0 <= i < |data| ==>
              r[i] == if IndexOf(data, data[i].id) == i then MergedEvents(data[i], events, mergeFrom) else data[i]
  {
    r := data;
    for k := 0 to |events|
      invariant |r| == |data| && Ids(r) == Ids(data)
      invariant forall i :: 0 <= i < |data| ==>
                  r[i] == if IndexOf(data, data[i].id) == i then MergedEvents(data[i], events[..k], mergeFrom) else data[i]
    {
      var cs := events[k];
      assert events[..k + 1][..k] == events[..k];
      var idx := IndexOf(r, cs.id);
      IndexOfSameIds(r, data, cs.id);
      if idx >= 0 && r[idx] != cs {
        r := r[idx := mergeFrom(r[idx], cs)];
      }
    }
    assert events[..|events|] == events;
  }

  /** The removed-changeset loop of changesetCacheUpdated. */
  method ReplaceRemoved(data: seq<Changeset>, removed: seq<Changeset>) returns (r: seq<Changeset>)
    requires DistinctIds(data)
    ensures |r| == |data| && Ids(r) == Ids(data)
    ensures forall i :: 0 <= i < |data| && (exists c :: c in removed && c.id == data[i].id) ==> r[i] == NewChangeset(data[i].id)
    ensures forall i :: 0 <= i < |data| && (forall c :: c in removed ==> c.id != data[i].id) ==> r[i] == data[i]
  {
    r := data;
    for k := 0 to |removed|
      invariant |r| == |data| && Ids(r) == Ids(data)
      invariant forall i :: 0 <= i < |data| && (exists c :: c in removed[..k] && c.id == data[i].id) ==>
                  r[i] == NewChangeset(data[i].id)
      invariant forall i :: 0 <= i < |data| && (forall c :: c in removed[..k] ==> c.id != data[i].id) ==> r[i] == data[i]
    {
      var cs := removed[k];
      var idx := IndexOf(r, cs.id);
      assert DistinctIds(r) by {
        assert forall i :: 0 <= i < |r| ==> r[i].id == Ids(r)[i] == Ids(data)[i] == data[i].id;
      }
      forall i | 0 <= i < |r| ensures idx == i <==> r[i].id == cs.id {
        IndexOfDistinct(r, i, cs.id);
      }
      if idx >= 0 {
        r := r[idx := NewChangeset(cs.id)];
      }
      assert removed[..k + 1] == removed[..k] + [cs];
    }
    assert removed[..|removed|] == removed;
  }
}
