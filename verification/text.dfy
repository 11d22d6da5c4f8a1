/**
 * String helpers shared by the converters and the inflector: runs of a
 * character class, suffixes, and the case-insensitive search behind
 * `String.prototype.replace` with an `i`-flagged pattern.
 */
module Text {
  import opened Options
  import opened Chars

  predicate IsSuffix(suffix: string, s: string) {
    |suffix| <= |s| && s[|s| - |suffix|..] == suffix
  }

  /** End of the maximal run of `p`-characters that starts at `i`. */
  function RunEnd(s: string, i: nat, p: char -> bool): (j: nat)
    requires i <= |s|
    ensures i <= j <= |s|
    ensures forall k | i <= k < j :: p(s[k])
    ensures j < |s| ==> !p(s[j])
    decreases |s| - i
  {
    if i == |s| || !p(s[i]) then i else RunEnd(s, i + 1, p)
  }

  /** Start of the maximal run of `p`-characters that ends the string. */
  function RunStart(s: string, p: char -> bool): (j: nat)
    ensures j <= |s|
    ensures forall k | j <= k < |s| :: p(s[k])
    ensures 0 < j ==> !p(s[j - 1])
    decreases |s|
  {
    if |s| == 0 || !p(s[|s| - 1]) then |s| else RunStart(s[..|s| - 1], p)
  }

  /** Character-by-character equality under the canonical (upper-case) form used by `i`-flagged patterns. */
  predicate SameLetters(a: string, b: string) {
    |a| == |b| && forall k | 0 <= k < |a| :: ToUpper(a[k]) == ToUpper(b[k])
  }

  /** `pat` occurs in `s` at `j`, ignoring case. */
  predicate OccursAt(s: string, pat: string, j: int) {
    0 <= j && j + |pat| <= |s| && SameLetters(s[j..j + |pat|], pat)
  }

  /** The leftmost case-insensitive occurrence of `pat` in `s` at or after `from`. */
  function FindIgnoringCase(s: string, pat: string, from: nat): (r: Option<nat>)
    requires from <= |s|
    ensures r.Some? ==> from <= r.value && OccursAt(s, pat, r.value)
    ensures r.Some? ==> forall j | from <= j < r.value :: !OccursAt(s, pat, j)
    ensures r.None? ==> forall j | from <= j <= |s| :: !OccursAt(s, pat, j)
    decreases |s| - from
  {
    if from + |pat| > |s| then None
    else if SameLetters(s[from..from + |pat|], pat) then Some(from)
    else if from == |s| then None
    else FindIgnoringCase(s, pat, from + 1)
  }

  /** `j` is the leftmost case-insensitive occurrence of `pat` in `s`. */
  predicate IsFirstOccurrence(s: string, pat: string, j: int) {
    OccursAt(s, pat, j) && forall i | 0 <= i < j :: !OccursAt(s, pat, i)
  }

  /** `s.replace(new RegExp(pat, "i"), sub)` for a pattern without metacharacters. */
  function ReplaceFirstIgnoringCase(s: string, pat: string, sub: string): (r: string)
    ensures (forall j | 0 <= j <= |s| :: !OccursAt(s, pat, j)) ==> r == s
    ensures forall j | IsFirstOccurrence(s, pat, j) :: r == s[..j] + sub + s[j + |pat|..]
  {
    match FindIgnoringCase(s, pat, 0)
    case None => s
    case Some(j) => s[..j] + sub + s[j + |pat|..]
  }
}
