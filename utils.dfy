/** The two general helpers of the tools package. */
module Utils {

  /**
   * exists: walks the collection in iteration order and stops at the first
   * element the predicate accepts. `examined` counts the elements the
   * predicate was applied to.
   */
  method Exists<T>(coll: seq<T>, pred: T -> bool) returns (found: bool, ghost examined: nat)
    ensures found <==> exists i :: 0 <= i < |coll| && pred(coll[i])
    ensures examined <= |coll|
    ensures found ==> 1 <= examined && pred(coll[examined - 1])
    ensures forall i :: 0 <= i < examined - 1 ==> !pred(coll[i])
    ensures !found ==> examined == |coll|
  {
    var k := 0;
    while k < |coll|
      invariant 0 <= k <= |coll|
      invariant forall i :: 0 <= i < k ==> !pred(coll[i])
    {
      if pred(coll[k]) {
        return true, k + 1;
      }
      k := k + 1;
    }
    return false, k;
  }

  /** min(a, b, c): the smallest of the three values. */
  function Min3(a: int, b: int, c: int): (m: int)
    ensures m == a || m == b || m == c
    ensures m <= a && m <= b && m <= c
  {
    if b < c then
      if a < b then a else b
    else
      if a < c then a else c
  }
}
