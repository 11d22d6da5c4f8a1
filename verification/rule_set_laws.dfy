/**
 * What the mutators promise about later queries: an irregular pair maps each
 * word to the other and leaves each target alone, a pushed rule decides the
 * words it matches, an uncountable word and its compounds are left unchanged,
 * and the count forms of `pluralize` reduce to the plain one.
 */
module RuleSetLaws {
  import opened Options
  import opened Chars
  import opened Text
  import opened OrderedMaps
  import opened Rules
  import opened CaseConverters
  import opened Inflection
  import opened InflectionLaws
  import opened RuleSets

  /** A key that ends `w` is new to a map none of whose keys ends `w`, so it is appended and found first. */
  lemma SetNewSuffixKey(m: Irregulars, k: string, v: string, w: string)
    requires NoSuffixKey(m, w) && IsSuffix(k, w)
    ensures Set(m, k, v) == m + [(k, v)]
    ensures IsFirstSuffixKey(Set(m, k, v), w, |m|)
  {
    var r := m + [(k, v)];
    assert forall j | 0 <= j < |m| :: r[j] == m[j];
  }

  /** Setting any key keeps the first entry whose key ends `w` first; only setting that entry's own key changes it. */
  lemma SetKeepsFirstSuffixKey(m: Irregulars, k: string, v: string, w: string, i: int)
    requires IsFirstSuffixKey(m, w, i)
    ensures IsFirstSuffixKey(Set(m, k, v), w, i)
    ensures Set(m, k, v)[i] == if k == m[i].0 then (k, v) else m[i]
  {
    var r := Set(m, k, v);
    if Has(m, k) {
      if k == m[i].0 {
        IndexOfFirst(m, k, i);
        SameKeysSameIndex(m, r);
        assert Get(r, k) == Some(r[i].1);
      }
    } else {
      assert forall j | 0 <= j < |m| :: r[j] == m[j];
    }
  }

  /** Setting a key that does not end `w` keeps `w` free of suffix keys. */
  lemma SetKeepsNoSuffixKey(m: Irregulars, k: string, v: string, w: string)
    requires NoSuffixKey(m, w) && !IsSuffix(k, w)
    ensures NoSuffixKey(Set(m, k, v), w)
  {
    var r := Set(m, k, v);
    if !Has(m, k) {
      assert forall j | 0 <= j < |m| :: r[j] == m[j];
    }
  }

  /** After `set(a, x)` then `set(b, y)`, a key `a` that ends `w` is found first, holding the later value when `b` is `a`. */
  lemma FirstSetFound(m: Irregulars, a: string, x: string, b: string, y: string, w: string) returns (i: nat)
    requires NoSuffixKey(m, w) && IsSuffix(a, w)
    ensures IsFirstSuffixKey(Set(Set(m, a, x), b, y), w, i)
    ensures Set(Set(m, a, x), b, y)[i] == (a, if b == a then y else x)
  {
    SetNewSuffixKey(m, a, x, w);
    i := |m|;
    SetKeepsFirstSuffixKey(Set(m, a, x), b, y, w, i);
  }

  /** After `set(a, x)` then `set(b, y)` with `b` ending `w` and `a` not (or equal), `b` is found first with `y`. */
  lemma SecondSetFound(m: Irregulars, a: string, x: string, b: string, y: string, w: string) returns (i: nat)
    requires NoSuffixKey(m, w) && IsSuffix(b, w) && (a == b || !IsSuffix(a, w))
    ensures IsFirstSuffixKey(Set(Set(m, a, x), b, y), w, i)
    ensures Set(Set(m, a, x), b, y)[i] == (b, y)
  {
    if a == b {
      i := FirstSetFound(m, a, x, b, y, w);
    } else {
      SetKeepsNoSuffixKey(m, a, x, w);
      SetNewSuffixKey(Set(m, a, x), b, y, w);
      i := |Set(m, a, x)|;
    }
  }

  /** A word without capitals is not camelized. */
  lemma LowerWordNotCamelized(w: string)
    requires HasNoUpper(w)
    ensures !IsCamelized(w)
  {
    var j := RunStart(w, IsLowerOrDigit);
    if 0 < j {
      assert !IsUpperCase(w[j - 1]);
    }
  }

  /** Replacing a word's first occurrence of itself gives the replacement. */
  lemma ReplaceWholeWord(w: string, v: string)
    ensures ReplaceFirstIgnoringCase(w, w, v) == v
  {
    assert w[0..|w|] == w;
    assert IsFirstOccurrence(w, w, 0);
    assert w[..0] + v + w[|w|..] == v;
  }

  /** A word whose whole lowercase form is its first suffix key occurs at the start of itself, ignoring case. */
  lemma LowerFormAtStart(w: string)
    ensures IsFirstOccurrence(w, LowerStr(w), 0)
  {
    assert LowerStr(w)[|LowerStr(w)| - |LowerStr(w)|..] == LowerStr(w);
    SuffixOfLowerOccurs(w, LowerStr(w));
  }

  /**
   * A word whose lowercase form is itself its first suffix key inflects to
   * that key's value, capitalized when the word keeps its capital.
   */
  lemma WholeWordIrregular(w: string, rules: seq<Rule>, m: Irregulars, uncountable: set<string>, i: int)
    requires !IsBlank(w) && !IsUncountable(w, uncountable)
    requires IsFirstSuffixKey(m, LowerStr(w), i) && m[i].0 == LowerStr(w)
    ensures Inflect(w, rules, m, uncountable) == if KeepsCapital(w, m) then Capitalize(m[i].1) else m[i].1
  {
    LowerFormAtStart(w);
    IrregularBranch(w, rules, m, uncountable, i, 0);
    SpliceWhole(w, m[i].0, m[i].1);
    SpliceWhole(w, m[i].0, Capitalize(m[i].1));
  }

  /** Replacing the whole of `w`, from position 0, by `v` gives `v`. */
  lemma SpliceWhole(w: string, key: string, v: string)
    requires |key| == |w|
    ensures w[..0] + v + w[0 + |key|..] == v
  {
    assert w[0 + |key|..] == [];
  }

  /**
   * `irregular(s, p)` makes `pluralize(s)` answer `p` (capitalized when `s`
   * keeps its capital), when `s` is neither blank nor uncountable and no
   * earlier key ends its lowercase form.
   */
  lemma IrregularPluralizes(rs: RuleSet, s: string, p: string)
    requires !IsBlank(s) && !IsUncountable(s, rs.uncountable)
    requires NoSuffixKey(rs.irregular, LowerStr(s))
    ensures var r := AddIrregular(rs, s, p);
      Pluralize(r, s) == if KeepsCapital(s, r.irregular) then Capitalize(p) else p
    ensures HasNoUpper(s) ==> Pluralize(AddIrregular(rs, s, p), s) == p
  {
    var r := AddIrregular(rs, s, p);
    var i := FirstSetFound(rs.irregular, LowerStr(s), p, LowerStr(p), p, LowerStr(s));
    WholeWordIrregular(s, r.plurals, r.irregular, r.uncountable, i);
    if HasNoUpper(s) {
      LowerWordNotCamelized(s);
    }
  }

  /**
   * `irregular(s, p)` makes `singularize(p)` answer `s` (capitalized when `p`
   * keeps its capital), when `p` is neither blank nor uncountable and no
   * earlier inverse key ends its lowercase form.
   */
  lemma IrregularSingularizes(rs: RuleSet, s: string, p: string)
    requires !IsBlank(p) && !IsUncountable(p, rs.uncountable)
    requires NoSuffixKey(rs.irregularInverse, LowerStr(p))
    ensures var r := AddIrregular(rs, s, p);
      Singularize(r, p) == if KeepsCapital(p, r.irregularInverse) then Capitalize(s) else s
    ensures HasNoUpper(p) ==> Singularize(AddIrregular(rs, s, p), p) == s
  {
    var r := AddIrregular(rs, s, p);
    var i := FirstSetFound(rs.irregularInverse, LowerStr(p), s, LowerStr(s), s, LowerStr(p));
    WholeWordIrregular(p, r.singulars, r.irregularInverse, r.uncountable, i);
    if HasNoUpper(p) {
      LowerWordNotCamelized(p);
    }
  }

  /**
   * After `irregular(s, p)`, `pluralize(p)` gives `p` back (capitalized when
   * `p` keeps its capital), provided the lowercase singular does not end the
   * lowercase plural unless the two are equal: otherwise the singular's key
   * is set first and found first.
   */
  lemma IrregularPluralStable(rs: RuleSet, s: string, p: string)
    requires !IsBlank(p) && !IsUncountable(p, rs.uncountable)
    requires NoSuffixKey(rs.irregular, LowerStr(p))
    requires LowerStr(s) == LowerStr(p) || !IsSuffix(LowerStr(s), LowerStr(p))
    ensures var r := AddIrregular(rs, s, p);
      Pluralize(r, p) == if KeepsCapital(p, r.irregular) then Capitalize(p) else p
    ensures HasNoUpper(p) ==> Pluralize(AddIrregular(rs, s, p), p) == p
  {
    var r := AddIrregular(rs, s, p);
    var i := SecondSetFound(rs.irregular, LowerStr(s), p, LowerStr(p), p, LowerStr(p));
    WholeWordIrregular(p, r.plurals, r.irregular, r.uncountable, i);
    if HasNoUpper(p) {
      LowerWordNotCamelized(p);
    }
  }

  /**
   * After `irregular(s, p)`, `singularize(s)` gives `s` back (capitalized
   * when `s` keeps its capital), provided the lowercase plural does not end
   * the lowercase singular unless the two are equal.
   */
  lemma IrregularSingularStable(rs: RuleSet, s: string, p: string)
    requires !IsBlank(s) && !IsUncountable(s, rs.uncountable)
    requires NoSuffixKey(rs.irregularInverse, LowerStr(s))
    requires LowerStr(p) == LowerStr(s) || !IsSuffix(LowerStr(p), LowerStr(s))
    ensures var r := AddIrregular(rs, s, p);
      Singularize(r, s) == if KeepsCapital(s, r.irregularInverse) then Capitalize(s) else s
    ensures HasNoUpper(s) ==> Singularize(AddIrregular(rs, s, p), s) == s
  {
    var r := AddIrregular(rs, s, p);
    var i := SecondSetFound(rs.irregularInverse, LowerStr(p), s, LowerStr(s), s, LowerStr(s));
    WholeWordIrregular(s, r.singulars, r.irregularInverse, r.uncountable, i);
    if HasNoUpper(s) {
      LowerWordNotCamelized(s);
    }
  }

  /** `plural(regex, string)` decides the plural of every word its pattern matches and changes no other. */
  lemma AddedPluralDecides(rs: RuleSet, pattern: Pattern, replacement: Template, w: string)
    requires ReachesRules(w, rs.irregular, rs.uncountable)
    ensures Matches(pattern, w) ==>
      Pluralize(AddPlural(rs, pattern, replacement), w) == Apply(Rule(pattern, LowerTemplate(replacement)), w)
    ensures !Matches(pattern, w) ==> Pluralize(AddPlural(rs, pattern, replacement), w) == Pluralize(rs, w)
  {
    LaterRuleWins(w, rs.plurals, Rule(pattern, LowerTemplate(replacement)), rs.irregular, rs.uncountable);
  }

  /** `singular(regex, string)` decides the singular of every word its pattern matches and changes no other. */
  lemma AddedSingularDecides(rs: RuleSet, pattern: Pattern, replacement: Template, w: string)
    requires ReachesRules(w, rs.irregularInverse, rs.uncountable)
    ensures Matches(pattern, w) ==>
      Singularize(AddSingular(rs, pattern, replacement), w) == Apply(Rule(pattern, LowerTemplate(replacement)), w)
    ensures !Matches(pattern, w) ==> Singularize(AddSingular(rs, pattern, replacement), w) == Singularize(rs, w)
  {
    LaterRuleWins(w, rs.singulars, Rule(pattern, LowerTemplate(replacement)), rs.irregularInverse, rs.uncountable);
  }

  /** `uncountable(u)` freezes `u` in any case, and every compound whose last segment is `u`. */
  lemma AddedUncountableProtects(rs: RuleSet, u: string, w: string)
    requires LowerStr(w) == LowerStr(u) || LastWord(w) == Some(LowerStr(u))
    ensures Pluralize(AddUncountable(rs, u), w) == w
    ensures Singularize(AddUncountable(rs, u), w) == w
  {
  }

  /**
   * `pluralize(count, word)`: a count that reads as exactly 1 keeps the word,
   * any other count (NaN included) pluralizes it, and the count is prefixed
   * unless `withoutCount` is set.
   */
  lemma CountedForms(rs: RuleSet, count: Count, w: string)
    ensures PluralizeWith(rs, Counted(count, w, false)) == count.rendered + " " + PluralizeWith(rs, Counted(count, w, true))
    ensures count.parsed == Some(1.0) ==> PluralizeWith(rs, Counted(count, w, true)) == w
    ensures count.parsed != Some(1.0) ==> PluralizeWith(rs, Counted(count, w, true)) == PluralizeWith(rs, Word(w))
  {
  }

  /** A map with no keys at all. */
  lemma NoKeysEmpty(m: Irregulars)
    requires forall k :: !Has(m, k)
    ensures m == []
  {
    if m != [] {
      assert Has(m, m[0].0);
    }
  }

  /** The rule set with only `[/$/, 's']` and `[/s$/, '']`. */
  function SuffixS(): RuleSet {
    Create(RuleSetInput([SuffixRule("", "s")], [SuffixRule("s", "")], [], []))
  }

  lemma SuffixSShape()
    ensures SuffixS() == RuleSet([SuffixRule("", "s")], [SuffixRule("s", "")], [], [], {})
  {
    var rs := SuffixS();
    NoKeysEmpty(rs.irregular);
    NoKeysEmpty(rs.irregularInverse);
  }

  lemma AppendSRule(rs: RuleSet, w: string)
    requires rs.plurals == [SuffixRule("", "s")] && rs.irregular == [] && rs.uncountable == {}
    requires !IsBlank(w)
    ensures Pluralize(rs, w) == w + "s"
  {
    AppendRule("s", w);
    assert IsLastMatch(rs.plurals, w, 0);
  }

  lemma StripSRule(rs: RuleSet, w: string)
    requires rs.singulars == [SuffixRule("s", "")] && rs.irregularInverse == [] && rs.uncountable == {}
    requires !IsBlank(w) && IsSuffix("s", w)
    ensures Singularize(rs, w) == w[..|w| - 1]
  {
    StripRule("s", w);
    assert IsLastMatch(rs.singulars, w, 0);
  }

  /** With only the add-`s` and strip-`s` rules, singularizing undoes pluralizing for every word. */
  lemma SuffixRulesRoundTrip(w: string)
    ensures Pluralize(SuffixS(), w) == if IsBlank(w) then w else w + "s"
    ensures Singularize(SuffixS(), Pluralize(SuffixS(), w)) == w
  {
    var rs := SuffixS();
    SuffixSShape();
    if !IsBlank(w) {
      var ws := w + "s";
      AppendSRule(rs, w);
      assert ws[|ws| - 1] == 's';
      assert !IsBlank(ws) by {
        assert !IsSpace(ws[|ws| - 1]);
      }
      assert IsSuffix("s", ws) by {
        assert ws[|ws| - 1..] == "s";
      }
      StripSRule(rs, ws);
      assert ws[..|ws| - 1] == w;
    }
  }
}
