/**
 * Counting tag values over a selection of primitives: how many primitives
 * carry a key, how many carry it with a given value, and the sum of a
 * key's value counts.
 */
module ValueCounts {

  /** The tags of one primitive. */
  type Tags = map<string, string>

  /** How many primitives of `sel` carry key `k`. */
  function KeyOcc(sel: seq<Tags>, k: string): (c: nat)
    ensures c <= |sel|
  {
    if sel == [] then 0
    else KeyOcc(sel[..|sel| - 1], k) + (if k in sel[|sel| - 1] then 1 else 0)
  }

  /** How many primitives of `sel` carry key `k` with value `v`; never more than carry the key. */
  function Occ(sel: seq<Tags>, k: string, v: string): (c: nat)
    ensures c <= KeyOcc(sel, k)
  {
    if sel == [] then 0
    else Occ(sel[..|sel| - 1], k, v) + (if k in sel[|sel| - 1] && sel[|sel| - 1][k] == v then 1 else 0)
  }

  /** The values key `k` has in `sel`: exactly those that occur. */
  function ValuesOf(sel: seq<Tags>, k: string): (vs: set<string>)
    ensures forall v :: v in vs <==> Occ(sel, k, v) > 0
  {
    if sel == [] then {}
    else
      var p := sel[|sel| - 1];
      ValuesOf(sel[..|sel| - 1], k) + (if k in p then {p[k]} else {})
  }

  /** Each value of key `k` with the number of primitives that carry it. */
  function ValueMap(sel: seq<Tags>, k: string): map<string, int> {
    map v | v in ValuesOf(sel, k) :: Occ(sel, k, v)
  }

  lemma OccSnoc(sel: seq<Tags>, p: Tags, k: string, v: string)
    ensures Occ(sel + [p], k, v) == Occ(sel, k, v) + (if k in p && p[k] == v then 1 else 0)
    ensures KeyOcc(sel + [p], k) == KeyOcc(sel, k) + (if k in p then 1 else 0)
  {
    assert (sel + [p])[..|sel|] == sel;
  }

  /** Tag maps with the same keys and the same values are the same. */
  lemma SameTags(a: Tags, b: Tags)
    requires a.Keys == b.Keys && forall k :: k in a ==> a[k] == b[k]
    ensures a == b
  {
  }

  /** keyCount holds, for every key of the selection, the number of primitives carrying it. */
  ghost predicate KeyCountsOf(kc: map<string, int>, sel: seq<Tags>) {
    && (forall k :: k in kc <==> KeyOcc(sel, k) > 0)
    && (forall k :: k in kc ==> kc[k] == KeyOcc(sel, k))
  }

  /**
   * valueCount holds, for every key of the selection, each of its values
   * with the number of primitives carrying it.
   */
  ghost predicate CountsOf(vc: map<string, map<string, int>>, sel: seq<Tags>) {
    && (forall k :: k in vc <==> KeyOcc(sel, k) > 0)
    && (forall k, v :: k in vc ==> (v in vc[k] <==> Occ(sel, k, v) > 0))
    && (forall k, v :: k in vc && v in vc[k] ==> vc[k][v] == Occ(sel, k, v))
  }

  /** A primitive without tags changes no count. */
  lemma CountsNoTags(kc: map<string, int>, vc: map<string, map<string, int>>, sel: seq<Tags>)
    requires KeyCountsOf(kc, sel) && CountsOf(vc, sel)
    ensures KeyCountsOf(kc, sel + [map[]]) && CountsOf(vc, sel + [map[]])
  {
    forall k, v
      ensures Occ(sel + [map[]], k, v) == Occ(sel, k, v) && KeyOcc(sel + [map[]], k) == KeyOcc(sel, k)
    {
      OccSnoc(sel, map[], k, v);
    }
  }

  /** One more tag of the last primitive adds one to its key and to its key and value. */
  lemma OccAddTag(sel: seq<Tags>, d: Tags, key: string, value: string)
    requires key !in d
    ensures forall k, v :: Occ(sel + [d[key := value]], k, v) == Occ(sel + [d], k, v) + (if k == key && v == value then 1 else 0)
    ensures forall k :: KeyOcc(sel + [d[key := value]], k) == KeyOcc(sel + [d], k) + (if k == key then 1 else 0)
  {
    var d' := d[key := value];
    forall k, v
      ensures Occ(sel + [d'], k, v) == Occ(sel + [d], k, v) + (if k == key && v == value then 1 else 0)
      ensures KeyOcc(sel + [d'], k) == KeyOcc(sel + [d], k) + (if k == key then 1 else 0)
    {
      OccSnoc(sel, d, k, v);
      OccSnoc(sel, d', k, v);
    }
  }

  /** One more tag `key` of the last primitive: the key count goes up by one, from 1 when absent. */
  lemma KeyCountsStep(kc: map<string, int>, sel: seq<Tags>, d: Tags, key: string, value: string)
    requires KeyCountsOf(kc, sel + [d]) && key !in d
    ensures KeyCountsOf(kc[key := if key in kc then kc[key] + 1 else 1], sel + [d[key := value]])
  {
    OccAddTag(sel, d, key, value);
  }

  /**
   * One more tag `key` = `value` of the last primitive: the count of that
   * value goes up by one, from 1 when absent, in the key's map, which is
   * new when the key is.
   */
  lemma ValueCountsStep(vc: map<string, map<string, int>>, sel: seq<Tags>, d: Tags,
                        key: string, value: string, inner: map<string, int>)
    requires CountsOf(vc, sel + [d]) && key !in d
    requires inner == if key in vc then vc[key] else map[]
    ensures CountsOf(vc[key := inner[value := if value in inner then inner[value] + 1 else 1]], sel + [d[key := value]])
  {
    OccAddTag(sel, d, key, value);
    var vc' := vc[key := inner[value := if value in inner then inner[value] + 1 else 1]];
    var sel' := sel + [d[key := value]];
    forall k, v | k in vc'
      ensures (v in vc'[k] <==> Occ(sel', k, v) > 0) && (v in vc'[k] ==> vc'[k][v] == Occ(sel', k, v))
    {
      if k != key {
        assert vc'[k] == vc[k];
      } else if key !in vc {
        assert Occ(sel + [d], k, v) == 0;
      }
    }
  }

  /** The counts of a key are the value map of that key. */
  lemma CountsAreValueMap(vc: map<string, map<string, int>>, sel: seq<Tags>, k: string)
    requires CountsOf(vc, sel) && k in vc
    ensures vc[k] == ValueMap(sel, k)
  {
    assert vc[k].Keys == ValuesOf(sel, k);
  }

  /** The sum of the values of `m` under `keys`. */
  ghost function SumOver(m: map<string, int>, keys: set<string>): int
    requires keys <= m.Keys
    decreases keys
  {
    if keys == {} then 0
    else
      var x :| x in keys;
      m[x] + SumOver(m, keys - {x})
  }

  /** A sum may take any of its keys first. */
  lemma {:induction false} SumOverRemove(m: map<string, int>, keys: set<string>, x: string)
    requires keys <= m.Keys && x in keys
    ensures SumOver(m, keys) == m[x] + SumOver(m, keys - {x})
    decreases keys
  {
    var y :| y in keys && SumOver(m, keys) == m[y] + SumOver(m, keys - {y});
    if y != x {
      SumOverRemove(m, keys - {y}, x);
      SumOverRemove(m, keys - {x}, y);
      assert keys - {y} - {x} == keys - {x} - {y};
    }
  }

  /** Maps that agree on `keys` have the same sum over them. */
  lemma {:induction false} SumOverSame(m1: map<string, int>, m2: map<string, int>, keys: set<string>)
    requires keys <= m1.Keys && keys <= m2.Keys
    requires forall x :: x in keys ==> m1[x] == m2[x]
    ensures SumOver(m1, keys) == SumOver(m2, keys)
    decreases keys
  {
    if keys != {} {
      var x :| x in keys;
      SumOverRemove(m1, keys, x);
      SumOverRemove(m2, keys, x);
      SumOverSame(m1, m2, keys - {x});
    }
  }

  /** The value counts of a key add up to the number of primitives that carry the key. */
  lemma {:induction false} ValueMapSum(sel: seq<Tags>, k: string)
    ensures SumOver(ValueMap(sel, k), ValuesOf(sel, k)) == KeyOcc(sel, k)
  {
    if sel != [] {
      var front, p := sel[..|sel| - 1], sel[|sel| - 1];
      assert sel == front + [p];
      ValueMapSum(front, k);
      var m, m' := ValueMap(front, k), ValueMap(sel, k);
      var vs, vs' := ValuesOf(front, k), ValuesOf(sel, k);
      forall v
        ensures Occ(sel, k, v) == Occ(front, k, v) + (if k in p && p[k] == v then 1 else 0)
      {
        OccSnoc(front, p, k, v);
      }
      OccSnoc(front, p, k, "");
      if k in p {
        var v0 := p[k];
        SumOverRemove(m', vs', v0);
        assert vs' - {v0} == vs - {v0};
        SumOverSame(m', m, vs - {v0});
        if v0 in vs {
          SumOverRemove(m, vs, v0);
        } else {
          assert vs - {v0} == vs;
        }
      } else {
        assert vs' == vs;
        SumOverSame(m', m, vs);
      }
    }
  }

  /** So the counts of every key of the selection add up to at most the selection's size. */
  lemma CountsSum(vc: map<string, map<string, int>>, sel: seq<Tags>, k: string)
    requires CountsOf(vc, sel) && k in vc
    ensures SumOver(vc[k], vc[k].Keys) == KeyOcc(sel, k) <= |sel|
  {
    CountsAreValueMap(vc, sel, k);
    assert ValueMap(sel, k).Keys == ValuesOf(sel, k);
    ValueMapSum(sel, k);
  }

  /** The sum of all the values of `m`. */
  ghost function Total(m: map<string, int>): int {
    SumOver(m, m.Keys)
  }

  /** Setting one entry replaces its old value in the total. */
  lemma TotalUpdate(m: map<string, int>, x: string, c: int)
    ensures Total(m[x := c]) == Total(m) - (if x in m then m[x] else 0) + c
  {
    var m' := m[x := c];
    SumOverRemove(m', m'.Keys, x);
    SumOverSame(m', m, m.Keys - {x});
    if x in m {
      assert m'.Keys == m.Keys;
      SumOverRemove(m, m.Keys, x);
    } else {
      assert m'.Keys - {x} == m.Keys - {x} == m.Keys;
    }
  }

  /**
   * The second pass as written: when the counts of a key fall short of the
   * selection size `n`, the shortfall is put under the empty value,
   * replacing any count already there.
   */
  ghost function Filled(m: map<string, int>, n: int): map<string, int> {
    if Total(m) < n then m["" := n - Total(m)] else m
  }

  /** The second pass adding the shortfall to the count of the empty value. */
  ghost function FilledIntended(m: map<string, int>, n: int): map<string, int> {
    if Total(m) < n then m["" := (if "" in m then m[""] else 0) + n - Total(m)] else m
  }

  /** The total after the second pass as written: the empty value's own count is lost. */
  lemma FilledTotalOf(m: map<string, int>, n: int)
    requires Total(m) <= n
    ensures Total(Filled(m, n)) == n - (if Total(m) < n && "" in m then m[""] else 0)
  {
    if Total(m) < n {
      TotalUpdate(m, "", n - Total(m));
    }
  }

  /** The total after the intended second pass is `n`. */
  lemma FilledIntendedTotalOf(m: map<string, int>, n: int)
    requires Total(m) <= n
    ensures Total(FilledIntended(m, n)) == n
  {
    if Total(m) < n {
      TotalUpdate(m, "", (if "" in m then m[""] else 0) + n - Total(m));
    }
  }

  /**
   * As written, the counts of a key add up to the selection size except
   * when some primitives lack the key and some carry it with the empty
   * value: those are then not counted.
   */
  lemma FilledTotal(vc: map<string, map<string, int>>, sel: seq<Tags>, k: string)
    requires CountsOf(vc, sel) && k in vc
    ensures Total(Filled(vc[k], |sel|)) == |sel| - (if KeyOcc(sel, k) < |sel| then Occ(sel, k, "") else 0)
  {
    CountsSum(vc, sel, k);
    FilledTotalOf(vc[k], |sel|);
    assert "" in vc[k] <==> Occ(sel, k, "") > 0;
  }

  /**
   * As written, a key that one primitive has with the empty value and
   * another lacks, e.g. the selection [{a=""}, {}], ends with counts adding
   * up to less than the selection size; adding the shortfall instead makes
   * them add up.
   */
  lemma AsWrittenDropsEmptyValues(vc: map<string, map<string, int>>, sel: seq<Tags>, k: string)
    requires CountsOf(vc, sel) && k in vc
    requires Occ(sel, k, "") > 0 && KeyOcc(sel, k) < |sel|
    ensures Total(Filled(vc[k], |sel|)) < |sel|
    ensures Total(FilledIntended(vc[k], |sel|)) == |sel|
  {
    FilledTotal(vc, sel, k);
    FilledIntendedTotal(vc, sel, k);
  }

  /**
   * Adding the shortfall, the counts of every key add up to the selection
   * size, and every non-empty value keeps its count.
   */
  lemma FilledIntendedTotal(vc: map<string, map<string, int>>, sel: seq<Tags>, k: string)
    requires CountsOf(vc, sel) && k in vc
    ensures Total(FilledIntended(vc[k], |sel|)) == |sel|
    ensures forall v :: v != "" ==> (v in FilledIntended(vc[k], |sel|) <==> Occ(sel, k, v) > 0)
    ensures forall v :: v != "" && v in FilledIntended(vc[k], |sel|) ==> FilledIntended(vc[k], |sel|)[v] == Occ(sel, k, v)
  {
    CountsSum(vc, sel, k);
    FilledIntendedTotalOf(vc[k], |sel|);
  }
}
