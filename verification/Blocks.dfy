/** Maps whose keys are a block of consecutive numbers. */
module Blocks {

  ghost predicate Block<T>(m: map<nat, T>, lo: nat, hi: nat) {
    lo <= hi && forall k: nat :: k in m <==> lo <= k < hi
  }

  lemma SmallerMap<T>(m: map<nat, T>, k: nat)
    requires k in m
    ensures |m - {k}| == |m| - 1
  {
    assert (m - {k}).Keys == m.Keys - {k};
    assert |m| == |m.Keys| && |m - {k}| == |(m - {k}).Keys|;
  }

  lemma {:induction false} BlockSize<T>(m: map<nat, T>, lo: nat, hi: nat)
    requires Block(m, lo, hi)
    ensures |m| == hi - lo
    decreases hi - lo
  {
    if lo < hi {
      SmallerMap(m, lo);
      BlockSize(m - {lo}, lo + 1, hi);
    } else {
      assert m == map[];
    }
  }
}
