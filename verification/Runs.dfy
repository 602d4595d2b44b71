/** Maximal runs of characters, the building block of the scanners. */
module Runs {

  /** End of the longest run of characters satisfying `p` that starts at `i`. */
  function RunEnd(p: char -> bool, s: string, i: nat): (r: nat)
    requires i <= |s|
    ensures i <= r <= |s|
    decreases |s| - i
  {
    if i < |s| && p(s[i]) then RunEnd(p, s, i + 1) else i
  }

  lemma {:induction false} RunEndIsMaximal(p: char -> bool, s: string, i: nat)
    requires i <= |s|
    ensures forall k | i <= k < RunEnd(p, s, i) :: p(s[k])
    ensures RunEnd(p, s, i) < |s| ==> !p(s[RunEnd(p, s, i)])
    decreases |s| - i
  {
    if i < |s| && p(s[i]) {
      RunEndIsMaximal(p, s, i + 1);
    }
  }

  lemma {:induction false} RunEndIs(p: char -> bool, s: string, i: nat, e: nat)
    requires i <= e <= |s|
    requires forall k | i <= k < e :: p(s[k])
    requires e < |s| ==> !p(s[e])
    ensures RunEnd(p, s, i) == e
    decreases e - i
  {
    if i < e {
      RunEndIs(p, s, i + 1, e);
    }
  }
}
