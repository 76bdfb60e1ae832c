/** Searching in strings. */
module Strings {
  /** `pat` stands in `t` at `k`. */
  predicate MatchAt(t: string, pat: string, k: nat) {
    k + |pat| <= |t| && t[k..k + |pat|] == pat
  }

  /** `t.find(pat, lo, hi)`: the leftmost place of `pat` in `t[lo..hi]`, or -1. */
  function Find(t: string, pat: string, lo: nat, hi: nat): (r: int)
    requires hi <= |t|
    ensures r >= 0 ==> lo <= r && r + |pat| <= hi && MatchAt(t, pat, r)
    ensures r < 0 ==> r == -1
    ensures forall k :: lo <= k && k + |pat| <= hi && (r < 0 || k < r) ==> !MatchAt(t, pat, k)
    decreases |t| - lo
  {
    if lo + |pat| > hi then -1 else if MatchAt(t, pat, lo) then lo else Find(t, pat, lo + 1, hi)
  }
}
