/**
 * OSM primitives and datasets as values.
 *
 * A primitive is identified by its kind and numeric id; an id <= 0 marks a
 * primitive that has not been uploaded yet ("new"). A dataset maps identities
 * to primitive records and remembers the order in which it lists them.
 */
module Osm {
  import opened Wrappers

  /** The three primitive kinds, in the order in which the merger visits them. */
  datatype Kind = Node | Way | Relation

  /** Identity of a primitive within a dataset (OsmPrimitive.getPrimitiveId()). */
  datatype PrimId = PrimId(kind: Kind, id: int) {
    /** OsmPrimitive.isNew(): no id has been assigned by the server yet. */
    predicate IsNew() { id <= 0 }
  }

  /** A relation member: a role and the identity of the member primitive. */
  datatype Member = Member(role: string, ref: PrimId)

  /** Coordinates; the floating-point values themselves are not modelled. */
  datatype LatLon = LatLon(lat: int, lon: int)

  /**
   * The attributes of a primitive. `nodes` is meaningful for ways, `members`
   * for relations and `coor` for nodes; the identity is the key under which a
   * dataset stores the record.
   */
  datatype Prim = Prim(
    version: nat,
    visible: bool,
    deleted: bool,
    modified: bool,
    incomplete: bool,
    user: string,
    timestamp: int,
    changesetId: int,
    tags: map<string, string>,
    coor: Option<LatLon>,
    nodes: seq<PrimId>,
    members: seq<Member>)

  /**
   * A freshly constructed primitive. `new Node(id)` with a real id yields an
   * incomplete primitive, `new Node()` a complete new one.
   */
  function NewPrimitive(withId: bool): (p: Prim)
    ensures p.incomplete == withId && !p.deleted && !p.modified && p.visible
    ensures p.nodes == [] && p.members == [] && p.tags == map[]
  {
    Prim(0, true, false, false, withId, "", 0, 0, map[], None, [], [])
  }

  /** A dataset: its primitives by identity and the order in which it lists them. */
  datatype DataSet = DataSet(prims: map<PrimId, Prim>, order: seq<PrimId>) {
    /** Every primitive is listed, and only primitives are listed. */
    ghost predicate Valid() {
      forall k :: k in prims <==> k in order
    }
  }

  /** True iff the primitive `p`, stored under `r`, refers to `k` (way node or relation member). */
  predicate RefersTo(r: PrimId, p: Prim, k: PrimId) {
    (r.kind == Way && k in p.nodes) ||
    (r.kind == Relation && exists m :: m in p.members && m.ref == k)
  }

  /**
   * OsmPrimitive.getReferrers(): the ways and relations of the same dataset
   * that refer to `k`. Deleting a way or relation detaches it from the
   * primitives it refers to, so deleted primitives are not referrers.
   */
  function Referrers(ds: DataSet, k: PrimId): (rs: set<PrimId>)
    ensures forall r :: r in rs ==> r in ds.prims && !ds.prims[r].deleted && r.kind != Node
  {
    set r | r in ds.prims && !ds.prims[r].deleted && RefersTo(r, ds.prims[r], k)
  }
}
