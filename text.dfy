/**
 * Substring tests on decoded text: Python's `t in s` for strings.
 */
module Text {

  /** `t` occurs in `s` starting at index `k`. */
  ghost predicate OccursAt(s: string, t: string, k: int) {
    0 <= k && k + |t| <= |s| && s[k..k + |t|] == t
  }

  /** The meaning of Python's `t in s`: `t` occurs somewhere in `s`. */
  ghost predicate Contains(s: string, t: string) {
    exists k :: OccursAt(s, t, k)
  }

  /** Scans `s` left to right from index `k` for an occurrence of `t`. */
  function FindFrom(s: string, t: string, k: nat): bool
    decreases |s| - k
  {
    if |s| < k + |t| then false
    else if s[k..k + |t|] == t then true
    else FindFrom(s, t, k + 1)
  }

  /** The executable form of `t in s`. */
  function HasSubstring(s: string, t: string): bool {
    FindFrom(s, t, 0)
  }

  /** The scan from `k` finds `t` exactly when `t` occurs at `k` or later. */
  lemma {:induction false} FindFromMeans(s: string, t: string, k: nat)
    decreases |s| - k
    ensures FindFrom(s, t, k) <==> exists m :: k <= m && OccursAt(s, t, m)
  {
    if |s| < k + |t| {
    } else if s[k..k + |t|] == t {
      assert OccursAt(s, t, k);
    } else {
      FindFromMeans(s, t, k + 1);
      assert !OccursAt(s, t, k);
    }
  }

  /** `HasSubstring` decides `t in s`. */
  lemma HasSubstringMeans(s: string, t: string)
    ensures HasSubstring(s, t) <==> Contains(s, t)
  {
    FindFromMeans(s, t, 0);
  }

  /** Whatever occurs in a prefix of `c` occurs in `c`. */
  lemma ContainsPrefix(a: string, c: string, t: string)
    requires a <= c && Contains(a, t)
    ensures Contains(c, t)
  {
    var k :| OccursAt(a, t, k);
    assert c[k..k + |t|] == a[k..k + |t|];
    assert OccursAt(c, t, k);
  }

  /** Whatever occurs in a slice of `s` occurs in `s`. */
  lemma ContainsSlice(s: string, i: int, j: int)
    requires 0 <= i <= j <= |s|
    ensures Contains(s, s[i..j])
  {
    assert OccursAt(s, s[i..j], i);
  }

  /** A text that lacks one of the characters of `t` does not contain `t`. */
  lemma MissingChar(s: string, t: string, k: int)
    requires 0 <= k < |t| && t[k] !in s
    ensures !Contains(s, t)
  {
    forall j | 0 <= j && j + |t| <= |s|
      ensures !OccursAt(s, t, j)
    {
      assert s[j..j + |t|][k] == s[j + k] && s[j + k] in s;
    }
  }
}
