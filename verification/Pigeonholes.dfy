/** The pigeonhole principle, by which endless courses come back to where they were. */
module Pigeonholes {

  /** A sequence within a smaller set repeats itself. */
  lemma {:induction false} Pigeonhole<T>(places: seq<T>, all: set<T>) returns (i: nat, j: nat)
    requires |places| > |all| && forall k :: 0 <= k < |places| ==> places[k] in all
    ensures i < j < |places| && places[i] == places[j]
    decreases |places|
  {
    var last := |places| - 1;
    if k :| 0 <= k < last && places[k] == places[last] {
      return k, last;
    }
    var fewer := all - {places[last]};
    assert places[last] in all && |fewer| == |all| - 1;
    i, j := Pigeonhole(places[..last], fewer);
  }
}
