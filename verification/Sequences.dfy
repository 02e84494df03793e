/** Slices of slices. */
module Sequences {
  lemma SubSlice<T>(s: seq<T>, off: nat, end: nat, a: nat, b: nat)
    requires off <= end <= |s| && a <= b <= end - off
    ensures s[off..end][a..b] == s[off+a..off+b]
  {
    var x, y := s[off..end][a..b], s[off+a..off+b];
    assert |x| == |y|;
    forall k | 0 <= k < |x| ensures x[k] == y[k] {
      assert x[k] == s[off..end][a + k] && y[k] == s[off + a + k];
    }
  }
}
