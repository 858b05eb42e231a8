/** Substring search, and the first slash of a path. */
module Text {
  predicate OccursAt(s: string, w: string, k: nat) {
    k + |w| <= |s| && s[k..k + |w|] == w
  }

  /** Python's `w in s`. */
  predicate Contains(s: string, w: string) {
    exists k | 0 <= k <= |s| :: OccursAt(s, w, k)
  }

  lemma NotAt(s: string, w: string, k: nat, j: nat)
    requires j < |w| && (k + j < |s| ==> s[k + j] != w[j])
    ensures !OccursAt(s, w, k)
  {
    if k + |w| <= |s| {
      assert s[k..k + |w|][j] == s[k + j];
    }
  }

  /** The first slash, or the end of the text. */
  function Cut(s: string): (k: nat)
    ensures k <= |s|
    ensures forall i | 0 <= i < k :: s[i] != '/'
    ensures k < |s| ==> s[k] == '/'
  {
    if s == "" || s[0] == '/' then 0 else 1 + Cut(s[1..])
  }
}
