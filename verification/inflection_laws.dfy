/**
 * What `inflect` promises: the irregular branch replaces the first
 * case-insensitive occurrence of the first matching key, regular rules never
 * see a word an irregular key ends, the last-registered matching rule wins,
 * and the uncountable check reaches the last segment of compound words but
 * not a word that merely ends in an uncountable.
 */
module InflectionLaws {
  import opened Options
  import opened Chars
  import opened Text
  import opened OrderedMaps
  import opened Rules
  import opened CaseConverters
  import opened ConverterLaws
  import opened Inflection

  /** A key that ends the lowercased word occurs, ignoring case, at the tail of the word itself. */
  lemma SuffixOfLowerOccurs(word: string, key: string)
    requires IsSuffix(key, LowerStr(word))
    ensures OccursAt(word, key, |word| - |key|)
  {
    var j := |word| - |key|;
    var lower := LowerStr(word);
    var tail := word[j..];
    assert lower[j..] == key;
    forall t | 0 <= t < |key|
      ensures ToUpper(tail[t]) == ToUpper(key[t])
    {
      var c := tail[t];
      assert key[t] == lower[j + t] == ToLower(c);
      CasePairs(c);
    }
    assert word[j..j + |key|] == tail;
  }

  /** Capitalizing a pattern does not move its first case-insensitive occurrence. */
  lemma CapitalizedFirstOccurrence(s: string, pat: string, j: int)
    requires IsFirstOccurrence(s, pat, j)
    ensures IsFirstOccurrence(s, Capitalize(pat), j)
  {
    CapitalizeSameLetters(pat);
    var cap := Capitalize(pat);
    forall t | 0 <= t <= j
      ensures OccursAt(s, cap, t) <==> OccursAt(s, pat, t)
    {
      if 0 <= t && t + |pat| <= |s| {
        var a := s[t..t + |pat|];
        assert SameLetters(a, cap) <==> SameLetters(a, pat);
      }
    }
  }

  /** An occurrence preceded only by letters unlike the pattern's first letter is the leftmost one. */
  lemma OccurrenceAfterUnlikePrefix(s: string, pat: string, j: int)
    requires OccursAt(s, pat, j) && |pat| > 0
    requires forall i | 0 <= i < j :: ToUpper(s[i]) != ToUpper(pat[0])
    ensures IsFirstOccurrence(s, pat, j)
  {
    forall i | 0 <= i < j ensures !OccursAt(s, pat, i) {
      if i + |pat| <= |s| {
        assert s[i..i + |pat|][0] == s[i];
      }
    }
  }

  /** The replacement `ApplyIrregular` makes, given the leftmost occurrence of the key. */
  lemma ApplyIrregularAt(word: string, irregular: Irregulars, i: nat, j: int)
    requires i < |irregular| && IsFirstOccurrence(word, irregular[i].0, j)
    ensures KeepsCapital(word, irregular) ==>
      ApplyIrregular(word, irregular, i) == word[..j] + Capitalize(irregular[i].1) + word[j + |irregular[i].0|..]
    ensures !KeepsCapital(word, irregular) ==>
      ApplyIrregular(word, irregular, i) == word[..j] + irregular[i].1 + word[j + |irregular[i].0|..]
  {
    var key := irregular[i].0;
    if KeepsCapital(word, irregular) {
      CapitalizedFirstOccurrence(word, key, j);
      assert |Capitalize(key)| == |key|;
    }
  }

  lemma InflectTakesIrregular(word: string, rules: seq<Rule>, irregular: Irregulars, uncountable: set<string>, i: int)
    requires !IsBlank(word) && !IsUncountable(word, uncountable)
    requires IsFirstSuffixKey(irregular, LowerStr(word), i)
    ensures Inflect(word, rules, irregular, uncountable) == ApplyIrregular(word, irregular, i)
  {
    assert FirstSuffixKey(irregular, LowerStr(word)) == Some(i);
  }

  /** A key that ends the lowercased word has a leftmost case-insensitive occurrence in the word. */
  lemma KeyOccurs(word: string, key: string) returns (j: nat)
    requires IsSuffix(key, LowerStr(word))
    ensures IsFirstOccurrence(word, key, j)
  {
    SuffixOfLowerOccurs(word, key);
    j := FindIgnoringCase(word, key, 0).value;
  }

  /**
   * The irregular branch: when entry `i` holds the first key that ends the
   * lowercased word and `j` is the key's leftmost case-insensitive occurrence
   * in the word (one exists, by `KeyOccurs`), the result is the word with that
   * occurrence replaced by the entry's value, capitalized when the word's
   * camelized last segment is itself an irregular key.
   */
  lemma IrregularBranch(word: string, rules: seq<Rule>, irregular: Irregulars, uncountable: set<string>, i: int, j: int)
    requires !IsBlank(word) && !IsUncountable(word, uncountable)
    requires IsFirstSuffixKey(irregular, LowerStr(word), i)
    requires IsFirstOccurrence(word, irregular[i].0, j)
    ensures KeepsCapital(word, irregular) ==>
      Inflect(word, rules, irregular, uncountable) == word[..j] + Capitalize(irregular[i].1) + word[j + |irregular[i].0|..]
    ensures !KeepsCapital(word, irregular) ==>
      Inflect(word, rules, irregular, uncountable) == word[..j] + irregular[i].1 + word[j + |irregular[i].0|..]
  {
    InflectTakesIrregular(word, rules, irregular, uncountable, i);
    ApplyIrregularAt(word, irregular, i, j);
  }

  /** Once an irregular key ends the word, the regular rules make no difference. */
  lemma IrregularIgnoresRules(word: string, rules1: seq<Rule>, rules2: seq<Rule>, irregular: Irregulars, uncountable: set<string>)
    requires !NoSuffixKey(irregular, LowerStr(word))
    ensures Inflect(word, rules1, irregular, uncountable) == Inflect(word, rules2, irregular, uncountable)
  {
  }

  lemma LastMatchExists(rules: seq<Rule>, w: string, k0: int)
    requires 0 <= k0 < |rules| && Matches(rules[k0].pattern, w)
    ensures exists k :: IsLastMatch(rules, w, k)
    decreases |rules| - k0
  {
    if !IsLastMatch(rules, w, k0) {
      var j :| k0 < j < |rules| && Matches(rules[j].pattern, w);
      LastMatchExists(rules, w, j);
    }
  }

  /**
   * Rules are scanned newest first: a newly pushed rule that matches decides
   * the result, and one that does not match changes nothing.
   */
  lemma LaterRuleWins(word: string, rules: seq<Rule>, r: Rule, irregular: Irregulars, uncountable: set<string>)
    requires ReachesRules(word, irregular, uncountable)
    ensures Matches(r.pattern, word) ==> Inflect(word, rules + [r], irregular, uncountable) == Apply(r, word)
    ensures !Matches(r.pattern, word) ==>
      Inflect(word, rules + [r], irregular, uncountable) == Inflect(word, rules, irregular, uncountable)
  {
    var rs := rules + [r];
    if Matches(r.pattern, word) {
      assert IsLastMatch(rs, word, |rules|);
    } else if NoRuleMatches(rules, word) {
      assert NoRuleMatches(rs, word);
    } else {
      var k0 :| 0 <= k0 < |rules| && Matches(rules[k0].pattern, word);
      LastMatchExists(rules, word, k0);
      var k :| IsLastMatch(rules, word, k);
      assert IsLastMatch(rs, word, k);
    }
  }

  predicate AllLowerOrDigit(s: string) {
    forall k | 0 <= k < |s| :: IsLowerOrDigit(s[k])
  }

  /** The trailing `[a-z\d]*` run of `w` starts right after position `b`. */
  lemma TrailingRunAfter(w: string, b: int)
    requires 0 <= b < |w| && !IsLowerOrDigit(w[b])
    requires forall k | b < k < |w| :: IsLowerOrDigit(w[k])
    ensures RunStart(w, IsLowerOrDigit) == b + 1
  {
  }

  /** `prefix-u`, `prefix_u`, `prefix/u`, `prefix u`: the last segment is `u`. */
  lemma DashedSegment(prefix: string, sep: char, u: string)
    requires |prefix| > 0 && IsDashedWordChar(prefix[|prefix| - 1]) && IsDashedSeparator(sep)
    requires u != [] && AllLowerOrDigit(u)
    ensures LastWord(prefix + [sep] + u) == Some(u)
  {
    var w := prefix + [sep] + u;
    var b := |prefix|;
    assert w[b] == sep && w[b - 1] == prefix[b - 1];
    forall k | b < k < |w| ensures IsLowerOrDigit(w[k]) {
      assert w[k] == u[k - b - 1];
    }
    TrailingRunAfter(w, b);
    assert w[b + 1..] == u;
    LowerStrOfLower(u);
  }

  /** A capital at `b`, a camel-word character before it and only `[a-z\d]` after it. */
  lemma CamelTail(w: string, b: int)
    requires 0 < b < |w| && IsCamelWordChar(w[b - 1]) && IsAsciiUpper(w[b])
    requires forall k | b < k < |w| :: IsLowerOrDigit(w[k])
    ensures LastWord(w) == Some(LowerStr(w[b..]))
    ensures IsCamelized(w)
  {
    TrailingRunAfter(w, b);
  }

  /** `prefixUrest`: the last segment is the lowercased capitalized tail, and the word is camelized. */
  lemma CamelSegment(prefix: string, c: char, rest: string)
    requires |prefix| > 0 && IsCamelWordChar(prefix[|prefix| - 1]) && IsAsciiUpper(c)
    requires AllLowerOrDigit(rest)
    ensures LastWord(prefix + [c] + rest) == Some([ToLower(c)] + rest)
    ensures IsCamelized(prefix + [c] + rest)
  {
    var w := prefix + [c] + rest;
    var b := |prefix|;
    SplitAfterPrefix(prefix, c, rest);
    CamelTail(w, b);
    LowerCapitalThenLower(c, rest);
  }

  lemma SplitAfterPrefix(prefix: string, c: char, rest: string)
    requires |prefix| > 0 && AllLowerOrDigit(rest)
    ensures var w := prefix + [c] + rest;
      && w[|prefix|] == c && w[|prefix| - 1] == prefix[|prefix| - 1] && w[|prefix|..] == [c] + rest
      && forall k | |prefix| < k < |w| :: IsLowerOrDigit(w[k])
  {
    var w := prefix + [c] + rest;
    forall k | |prefix| < k < |w| ensures IsLowerOrDigit(w[k]) {
      assert w[k] == rest[k - |prefix| - 1];
    }
  }

  lemma LowerCapitalThenLower(c: char, rest: string)
    requires AllLowerOrDigit(rest)
    ensures LowerStr([c] + rest) == [ToLower(c)] + rest
  {
    var s := [c] + rest;
    forall k | 0 < k < |s| ensures LowerStr(s)[k] == rest[k - 1] {
      assert s[k] == rest[k - 1];
      assert IsLowerOrDigit(rest[k - 1]);
    }
  }

  /** A word of lowercase letters and digits only has no last segment of its own. */
  lemma PlainWordHasNoLastWord(w: string)
    requires AllLowerOrDigit(w)
    ensures LastWord(w) == None
  {
  }

  /**
   * For a plain lowercase word the uncountable check is exact membership: an
   * uncountable that is only a suffix (`rice` in `price`) does not protect it.
   */
  lemma PlainWordUncountableExactly(w: string, uncountable: set<string>)
    requires AllLowerOrDigit(w)
    ensures IsUncountable(w, uncountable) <==> w in uncountable
  {
    PlainWordHasNoLastWord(w);
    LowerStrOfLower(w);
  }

  /** Uncountable protection is insensitive to the word's case. */
  lemma UncountableIgnoresCase(w: string, rules: seq<Rule>, irregular: Irregulars, uncountable: set<string>)
    requires LowerStr(w) in uncountable
    ensures Inflect(w, rules, irregular, uncountable) == w
  {
  }
}
