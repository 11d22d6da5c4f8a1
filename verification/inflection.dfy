/**
 * The inflection algorithm `inflect(word, typeRules, irregular)` shared by
 * `pluralize` and `singularize`, as a pure function of the word, the ordered
 * regular rules, the ordered irregular map and the uncountable set.
 *
 * Steps, in order: blank passthrough; uncountable check on the lowercased
 * word and on its last segment; the first irregular key (in insertion order)
 * that ends the lowercased word; otherwise the last-registered regular rule
 * that matches.
 */
module Inflection {
  import opened Options
  import opened Chars
  import opened Text
  import opened OrderedMaps
  import opened Rules
  import CaseConverters

  /** Lowercased key to replacement, in insertion order. */
  type Irregulars = OrderedMap<string, string>

  /** `!word || /^\s*$/.test(word)` */
  predicate IsBlank(w: string) {
    forall k | 0 <= k < |w| :: IsSpace(w[k])
  }

  /** `w` ends with a capital at `i` followed only by `[a-z\d]`. */
  ghost predicate CapitalRunAt(w: string, i: int) {
    0 <= i < |w| && IsAsciiUpper(w[i]) && forall k | i < k < |w| :: IsLowerOrDigit(w[k])
  }

  /** `/[A-Z][a-z\d]*$/.test(word)` */
  predicate IsCamelized(w: string) {
    var j := RunStart(w, IsLowerOrDigit);
    0 < j && IsAsciiUpper(w[j - 1])
  }

  /** The scan agrees with the regular expression: some capital starts a trailing `[a-z\d]*` run. */
  lemma IsCamelizedMeaning(w: string)
    ensures IsCamelized(w) <==> exists i :: CapitalRunAt(w, i)
  {
    var j := RunStart(w, IsLowerOrDigit);
    assert forall i | CapitalRunAt(w, i) :: i == j - 1;
    if IsCamelized(w) {
      assert CapitalRunAt(w, j - 1);
    }
  }

  /** `[\w/-]` */
  predicate IsDashedWordChar(c: char) { IsWordChar(c) || c == '/' || c == '-' }

  /** `[_/\s-]` */
  predicate IsDashedSeparator(c: char) { c == '_' || c == '/' || IsSpace(c) || c == '-' }

  /** `[\w/\s-]` */
  predicate IsCamelWordChar(c: char) { IsWordChar(c) || c == '/' || IsSpace(c) || c == '-' }

  /** LAST_WORD_DASHED_REGEX `/([\w/-]+[_/\s-])([a-z\d]+$)/` matches `w` with its second group starting at `b`. */
  ghost predicate DashedSplitAt(w: string, b: int) {
    && 2 <= b < |w|
    && IsDashedWordChar(w[b - 2])
    && IsDashedSeparator(w[b - 1])
    && forall k | b <= k < |w| :: IsLowerOrDigit(w[k])
  }

  /** LAST_WORD_CAMELIZED_REGEX `/([\w/\s-]+)([A-Z][a-z\d]*$)/` matches `w` with its second group starting at `b`. */
  ghost predicate CamelSplitAt(w: string, b: int) {
    1 <= b && CapitalRunAt(w, b) && IsCamelWordChar(w[b - 1])
  }

  /**
   * `lastWord`: the lowercased second group of the dashed pattern, else of the
   * camelized pattern, else `undefined`.  Each pattern can place its second
   * group in at most one spot, so the result does not depend on which match
   * the regular expression engine reports.
   */
  function LastWord(w: string): Option<string> {
    var j := RunStart(w, IsLowerOrDigit);
    if 2 <= j < |w| && IsDashedWordChar(w[j - 2]) && IsDashedSeparator(w[j - 1]) then
      Some(LowerStr(w[j..]))
    else if 2 <= j && IsAsciiUpper(w[j - 1]) && IsCamelWordChar(w[j - 2]) then
      Some(LowerStr(w[j - 1..]))
    else
      None
  }

  /** The scan agrees with the two regular expressions, the dashed one taking precedence. */
  lemma LastWordMeaning(w: string)
    ensures forall b | DashedSplitAt(w, b) :: LastWord(w) == Some(LowerStr(w[b..]))
    ensures (forall b :: !DashedSplitAt(w, b)) ==>
      forall b | CamelSplitAt(w, b) :: LastWord(w) == Some(LowerStr(w[b..]))
    ensures LastWord(w).Some? ==> (exists b :: DashedSplitAt(w, b)) || (exists b :: CamelSplitAt(w, b))
  {
    var j := RunStart(w, IsLowerOrDigit);
    assert forall b | DashedSplitAt(w, b) :: b == j;
    assert forall b | CamelSplitAt(w, b) :: b == j - 1;
    if 2 <= j < |w| && IsDashedWordChar(w[j - 2]) && IsDashedSeparator(w[j - 1]) {
      assert DashedSplitAt(w, j);
    } else if 2 <= j && IsAsciiUpper(w[j - 1]) && IsCamelWordChar(w[j - 2]) {
      assert CamelSplitAt(w, j - 1);
    }
  }

  /** The whole lowercased word, or its last segment, is uncountable. */
  predicate IsUncountable(w: string, uncountable: set<string>) {
    || LowerStr(w) in uncountable
    || (LastWord(w).Some? && LastWord(w).value in uncountable)
  }

  /** `i` is the first entry, in insertion order, whose key ends `lower` (`lower.match(rule + "$")`). */
  ghost predicate IsFirstSuffixKey(m: Irregulars, lower: string, i: int) {
    0 <= i < |m| && IsSuffix(m[i].0, lower) && forall j | 0 <= j < i :: !IsSuffix(m[j].0, lower)
  }

  predicate NoSuffixKey(m: Irregulars, lower: string) {
    forall j | 0 <= j < |m| :: !IsSuffix(m[j].0, lower)
  }

  function FirstSuffixKey(m: Irregulars, lower: string): (r: Option<nat>)
    ensures r.Some? ==> IsFirstSuffixKey(m, lower, r.value)
    ensures r.None? <==> NoSuffixKey(m, lower)
    decreases |m|
  {
    if m == [] then None
    else if IsSuffix(m[0].0, lower) then Some(0)
    else match FirstSuffixKey(m[1..], lower)
      case None => None
      case Some(i) => Some(i + 1)
  }

  /** The replacement keeps the capital of the last segment: `isCamelized && irregular.has(lastWord)`. */
  predicate KeepsCapital(word: string, irregular: Irregulars) {
    IsCamelized(word) && LastWord(word).Some? && Has(irregular, LastWord(word).value)
  }

  /**
   * The irregular branch for entry `i`: the first case-insensitive occurrence of
   * its key in `word` is replaced by its value, both capitalized first when
   * `KeepsCapital` holds.
   */
  function ApplyIrregular(word: string, irregular: Irregulars, i: nat): string
    requires i < |irregular|
  {
    var key := irregular[i].0;
    var value := irregular[i].1;
    if KeepsCapital(word, irregular) then
      ReplaceFirstIgnoringCase(word, CaseConverters.Capitalize(key), CaseConverters.Capitalize(value))
    else
      ReplaceFirstIgnoringCase(word, key, value)
  }

  /** `k` is the last-registered rule that matches `w`. */
  ghost predicate IsLastMatch(rules: seq<Rule>, w: string, k: int) {
    0 <= k < |rules| && Matches(rules[k].pattern, w)
    && forall j | k < j < |rules| :: !Matches(rules[j].pattern, w)
  }

  predicate NoRuleMatches(rules: seq<Rule>, w: string) {
    forall k | 0 <= k < |rules| :: !Matches(rules[k].pattern, w)
  }

  /**
   * The loop `for (i = typeRules.length; i > 0; i--)` that stops at the first
   * matching rule.  When nothing matches it leaves the last rule it looked at,
   * `typeRules[0]`, in `inflection`; with no rules at all it leaves `undefined`.
   */
  function SelectRule(rules: seq<Rule>, w: string): (r: Option<Rule>)
    ensures r.None? <==> |rules| == 0
    ensures forall k | IsLastMatch(rules, w, k) :: r == Some(rules[k])
    ensures NoRuleMatches(rules, w) ==> r.None? || r == Some(rules[0])
    decreases |rules|
  {
    var n := |rules|;
    if n == 0 then None
    else if Matches(rules[n - 1].pattern, w) || n == 1 then Some(rules[n - 1])
    else
      assert forall k | IsLastMatch(rules, w, k) :: IsLastMatch(rules[..n - 1], w, k);
      SelectRule(rules[..n - 1], w)
  }

  /** `word.replace(rule, substitution)`; with both `undefined` the word is unchanged. */
  function ApplySelected(sel: Option<Rule>, w: string): string {
    match sel
    case None => w
    case Some(r) => Apply(r, w)
  }

  /** Neither blank nor uncountable, and no irregular key ends the lowercased word. */
  predicate ReachesRules(word: string, irregular: Irregulars, uncountable: set<string>) {
    !IsBlank(word) && !IsUncountable(word, uncountable) && NoSuffixKey(irregular, LowerStr(word))
  }

  function Inflect(word: string, rules: seq<Rule>, irregular: Irregulars, uncountable: set<string>): (r: string)
    ensures IsBlank(word) ==> r == word
    ensures IsUncountable(word, uncountable) ==> r == word
    ensures ReachesRules(word, irregular, uncountable) ==>
      forall k | IsLastMatch(rules, word, k) :: r == Apply(rules[k], word)
    ensures ReachesRules(word, irregular, uncountable) && NoRuleMatches(rules, word) ==> r == word
  {
    if IsBlank(word) then word
    else if IsUncountable(word, uncountable) then word
    else match FirstSuffixKey(irregular, LowerStr(word))
      case Some(i) => ApplyIrregular(word, irregular, i)
      case None => ApplySelected(SelectRule(rules, word), word)
  }
}
