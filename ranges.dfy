/** `range(lo, hi)` / `np.arange(lo, hi)` over integers. */
module Ranges {

  /** lo, lo + 1, ..., hi - 1; empty when hi <= lo. */
  function Range(lo: int, hi: int): (r: seq<int>)
    ensures |r| == if lo <= hi then hi - lo else 0
    ensures forall p :: 0 <= p < |r| ==> r[p] == lo + p
    decreases hi - lo
  {
    if hi <= lo then [] else [lo] + Range(lo + 1, hi)
  }

  predicate Increasing(s: seq<int>) {
    forall p, q :: 0 <= p < q < |s| ==> s[p] < s[q]
  }

  lemma RangeMembers(lo: int, hi: int)
    ensures Increasing(Range(lo, hi))
    ensures forall x :: x in Range(lo, hi) <==> lo <= x < hi
  {
    var r := Range(lo, hi);
    forall x | lo <= x < hi ensures x in r {
      assert r[x - lo] == x;
    }
  }

  lemma RangeMember(lo: int, hi: int, x: int)
    ensures x in Range(lo, hi) <==> lo <= x < hi
  {
    RangeMembers(lo, hi);
  }
}
