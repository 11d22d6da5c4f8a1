/** Inflectors built and queried as the repository's tests do, with the answers those tests expect. */
module InflectorScenarios {
  import opened Options
  import opened Chars
  import opened Text
  import opened OrderedMaps
  import opened Rules
  import opened Inflection
  import opened InflectionLaws
  import opened RuleSets
  import opened RuleSetLaws
  import opened CaseConverters

  /** `new Inflector()`: no rules at all. */
  function Empty(): RuleSet {
    Create(RuleSetInput([], [], [], []))
  }

  lemma EmptyHasNothing()
    ensures Empty().plurals == [] && Empty().singulars == []
    ensures Empty().irregular == [] && Empty().irregularInverse == []
    ensures Empty().uncountable == {}
  {
    NoKeysEmpty(Empty().irregular);
    NoKeysEmpty(Empty().irregularInverse);
  }

  /** `plural(/$/, 's')` */
  function AppendS(rs: RuleSet): RuleSet {
    AddPlural(rs, Pattern("", false, false), [Literal("s")])
  }

  /** `singular(/s$/, '')` */
  function StripS(rs: RuleSet): RuleSet {
    AddSingular(rs, Pattern("s", false, false), [Literal("")])
  }

  lemma AppendSIsSuffixRule(rs: RuleSet)
    ensures AppendS(rs).plurals == rs.plurals + [SuffixRule("", "s")]
  {
    var t := LowerTemplate([Literal("s")]);
    assert t[0] == Literal(LowerStr("s")) && LowerStr("s") == "s";
    assert t == [Literal("s")];
  }

  lemma StripSIsSuffixRule(rs: RuleSet)
    ensures StripS(rs).singulars == rs.singulars + [SuffixRule("s", "")]
  {
    var t := LowerTemplate([Literal("")]);
    assert t[0] == Literal(LowerStr("")) && LowerStr("") == "";
    assert t == [Literal("")];
  }

  /** The only plural rule is `[/$/, 's']` and no irregular key exists: every countable word gets an `s`. */
  lemma AppendsS(rs: RuleSet, w: string)
    requires rs.plurals == [SuffixRule("", "s")] && rs.irregular == []
    requires !IsBlank(w) && !IsUncountable(w, rs.uncountable)
    ensures Pluralize(rs, w) == w + "s"
  {
    AppendRule("s", w);
    assert IsLastMatch(rs.plurals, w, 0);
  }

  /** With no other rules, `plural(/$/, 's')` makes `pluralize` append `s`. */
  lemma PluralizeAppendsS(w: string)
    requires !IsBlank(w)
    ensures Pluralize(AppendS(Empty()), w) == w + "s"
  {
    EmptyHasNothing();
    AppendSIsSuffixRule(Empty());
    AppendsS(AppendS(Empty()), w);
  }

  lemma NoRuleNoChange()
    ensures Pluralize(Empty(), "cow") == "cow"
    ensures Singularize(Empty(), "cows") == "cows"
  {
    EmptyHasNothing();
  }

  /** A non-empty word of lowercase letters and digits. */
  lemma PlainWord(w: string)
    requires w != [] && AllLowerOrDigit(w)
    ensures HasNoUpper(w) && !IsBlank(w) && LowerStr(w) == w
    ensures !IsUncountable(w, {}) && NoSuffixKey([], w)
  {
    assert !IsSpace(w[0]);
    LowerStrOfLower(w);
  }

  /** The lowercase words the scenarios use, each one plain. */
  lemma CowKineArePlain()
    ensures HasNoUpper("cow") && !IsBlank("cow") && LowerStr("cow") == "cow"
    ensures HasNoUpper("kine") && !IsBlank("kine") && LowerStr("kine") == "kine"
    ensures !IsUncountable("cow", {}) && !IsUncountable("kine", {})
    ensures !IsSuffix("kine", "cow") && !IsSuffix("cow", "kine")
  {
    PlainWord("cow");
    PlainWord("kine");
  }

  lemma LensesArePlain()
    ensures HasNoUpper("lens") && !IsBlank("lens") && LowerStr("lenses") == "lenses"
    ensures !IsUncountable("lens", {}) && NoSuffixKey([], "lens") && !IsSuffix("lenses", "lens")
  {
    PlainWord("lens");
    PlainWord("lenses");
  }

  lemma PeopleArePlain()
    ensures HasNoUpper("people") && !IsBlank("people") && LowerStr("person") == "person"
    ensures !IsUncountable("people", {}) && NoSuffixKey([], "people") && !IsSuffix("person", "people")
  {
    PersonNotPeople();
    PlainWord("people");
    PlainWord("person");
  }

  lemma PersonNotPeople()
    ensures !IsSuffix("person", "people")
  {
    assert "people"[0..][2] != "person"[2];
  }

  lemma WordsArePlain()
    ensures HasNoUpper("word") && !IsBlank("word") && LowerStr("word") == "word"
    ensures HasNoUpper("wordy") && !IsBlank("wordy") && LowerStr("wordy") == "wordy"
    ensures !IsUncountable("word", {}) && !IsUncountable("wordy", {})
    ensures NoSuffixKey([], "word") && NoSuffixKey([], "wordy")
    ensures !IsSuffix("wordy", "word") && !IsSuffix("word", "wordy")
  {
    assert "wordy"[|"wordy"| - |"word"|..][0] != "word"[0];
    PlainWord("word");
    PlainWord("wordy");
  }

  lemma CountsIncluded()
    ensures PluralizeWith(AppendS(Empty()), Counted(Count("1", Some(1.0)), "cat", false)) == "1 cat"
    ensures PluralizeWith(AppendS(Empty()), Counted(Count("5", Some(5.0)), "cat", false)) == "5 cats"
    ensures PluralizeWith(AppendS(Empty()), Counted(Count("5", Some(5.0)), "cat", true)) == "cats"
  {
    var rs := AppendS(Empty());
    assert !IsBlank("cat") by { assert !IsSpace("cat"[0]); }
    CatSpelled();
    PluralizeAppendsS("cat");
    CountedForms(rs, Count("1", Some(1.0)), "cat");
    CountedForms(rs, Count("5", Some(5.0)), "cat");
  }

  lemma CatSpelled()
    ensures "cat" + "s" == "cats" && "1" + " " + "cat" == "1 cat" && "5" + " " + "cats" == "5 cats"
  {
  }

  // ---------------------------------------------------------------------------
  // uncountable('cow') after plural(/$/, 's')

  function CowUncountable(): RuleSet {
    AddUncountable(AppendS(Empty()), "cow")
  }

  lemma UncountableCow()
    ensures Pluralize(AppendS(Empty()), "cow") == "cows"
    ensures Pluralize(CowUncountable(), "cow") == "cow"
  {
    assert !IsSpace("cow"[0]);
    PluralizeAppendsS("cow");
    AddedUncountableProtects(AppendS(Empty()), "cow", "cow");
  }

  lemma UncountableCamelCompound()
    ensures Pluralize(CowUncountable(), "redCow") == "redCow"
  {
    CamelSegment("red", 'C', "ow");
    assert "red" + ['C'] + "ow" == "redCow";
    assert [ToLower('C')] + "ow" == "cow" == LowerStr("cow");
    AddedUncountableProtects(AppendS(Empty()), "cow", "redCow");
  }

  lemma UncountableDashedCompound()
    ensures Pluralize(CowUncountable(), "red-cow") == "red-cow"
  {
    DashedSegment("red", '-', "cow");
    assert "red" + ['-'] + "cow" == "red-cow";
    assert LowerStr("cow") == "cow";
    AddedUncountableProtects(AppendS(Empty()), "cow", "red-cow");
  }

  lemma UncountableNamespacedCompound()
    ensures Pluralize(CowUncountable(), "red/cow") == "red/cow"
  {
    DashedSegment("red", '/', "cow");
    assert "red" + ['/'] + "cow" == "red/cow";
    assert LowerStr("cow") == "cow";
    AddedUncountableProtects(AppendS(Empty()), "cow", "red/cow");
  }

  // ---------------------------------------------------------------------------
  // singular(/s$/, ''), plural(/$/, 's'), irregular('cow', 'kine')

  function Regular(): RuleSet {
    AppendS(StripS(Empty()))
  }

  function CowKine(): RuleSet {
    AddIrregular(Regular(), "cow", "kine")
  }

  lemma RegularHasNoIrregulars()
    ensures Regular().irregular == [] && Regular().irregularInverse == [] && Regular().uncountable == {}
  {
    EmptyHasNothing();
  }

  lemma CowKineMaps()
    ensures CowKine().irregular == [("cow", "kine"), ("kine", "kine")]
    ensures CowKine().irregularInverse == [("kine", "cow"), ("cow", "cow")]
    ensures CowKine().uncountable == {}
  {
    RegularHasNoIrregulars();
    assert LowerStr("cow") == "cow" && LowerStr("kine") == "kine";
    assert !Has([("cow", "kine")], "kine");
    assert !Has([("kine", "cow")], "cow");
  }

  lemma CowPluralizesToKine()
    ensures Pluralize(CowKine(), "cow") == "kine"
  {
    CowKineArePlain();
    RegularHasNoIrregulars();
    var rs := Regular();
    assert NoSuffixKey(rs.irregular, "cow");
    assert !IsUncountable("cow", rs.uncountable);
    IrregularPluralizes(rs, "cow", "kine");
  }

  lemma KineSingularizesToCow()
    ensures Singularize(CowKine(), "kine") == "cow"
  {
    CowKineArePlain();
    RegularHasNoIrregulars();
    var rs := Regular();
    assert NoSuffixKey(rs.irregularInverse, "kine");
    assert !IsUncountable("kine", rs.uncountable);
    IrregularSingularizes(rs, "cow", "kine");
  }

  lemma RedCowOccurrence()
    ensures IsFirstOccurrence("red-cow", "cow", 4)
  {
    var w := "red-cow";
    assert w[4..7] == "cow";
    assert forall i | 0 <= i < 4 :: ToUpper(w[i]) != 'C';
    OccurrenceAfterUnlikePrefix(w, "cow", 4);
  }

  lemma RedCowFacts()
    ensures !IsBlank("red-cow") && HasNoUpper("red-cow")
    ensures IsFirstSuffixKey([("cow", "kine"), ("kine", "kine")], LowerStr("red-cow"), 0)
  {
    var w := "red-cow";
    assert !IsSpace(w[0]);
    LowerStrOfLower(w);
    assert w[4..] == "cow";
  }

  lemma DashedIrregular(rs: RuleSet)
    requires HasCowKine(rs)
    ensures Pluralize(rs, "red-cow") == "red-kine"
  {
    var m := rs.irregular;
    assert !IsBlank("red-cow") && IsFirstSuffixKey(m, LowerStr("red-cow"), 0) by { RedCowFacts(); }
    assert !IsUncountable("red-cow", {});
    assert !KeepsCapital("red-cow", m) by {
      RedCowFacts();
      LowerWordNotCamelized("red-cow");
    }
    assert IsFirstOccurrence("red-cow", m[0].0, 4) by { RedCowOccurrence(); }
    IrregularBranch("red-cow", rs.plurals, m, {}, 0, 4);
    RedDashKineSpelled();
  }

  lemma RedDashKineSpelled()
    ensures "red-cow"[..4] + "kine" + "red-cow"[4 + |"cow"|..] == "red-kine"
  {
    assert "red-cow"[..4] == "red-";
  }

  lemma DashedIrregularPlural()
    ensures Pluralize(CowKine(), "red-cow") == "red-kine"
  {
    CowKineMaps();
    DashedIrregular(CowKine());
  }

  lemma RedCowCamelSegment()
    ensures IsCamelized("redCow") && LastWord("redCow") == Some("cow")
  {
    CamelSegment("red", 'C', "ow");
    assert "red" + ['C'] + "ow" == "redCow";
    assert [ToLower('C')] + "ow" == "cow";
  }

  lemma RedCowCamelKey()
    ensures !IsBlank("redCow")
    ensures IsFirstSuffixKey([("cow", "kine"), ("kine", "kine")], LowerStr("redCow"), 0)
  {
    var w := "redCow";
    assert !IsSpace(w[0]);
    var l := LowerStr(w);
    assert l[3] == 'c' && l[4] == 'o' && l[5] == 'w';
    assert l[3..] == "cow";
  }

  lemma RedCowCamelOccurrence()
    ensures IsFirstOccurrence("redCow", "cow", 3)
  {
    var w := "redCow";
    assert w[3..6] == "Cow";
    assert SameLetters("Cow", "cow");
    assert forall i | 0 <= i < 3 :: ToUpper(w[i]) != 'C';
    OccurrenceAfterUnlikePrefix(w, "cow", 3);
  }

  lemma KineCapitalized()
    ensures Capitalize("kine") == "Kine"
  {
    var r := Capitalize("kine");
    assert r[0] == 'K';
    forall k | 1 <= k < 4 ensures r[k] == "kine"[k] { }
  }

  lemma RedKineSpelled()
    ensures "redCow"[..3] + "Kine" + "redCow"[6..] == "redKine"
  {
    assert "redCow"[..3] == "red";
  }

  /** The irregular map `irregular('cow', 'kine')` builds on an empty one. */
  predicate HasCowKine(rs: RuleSet) {
    rs.irregular == [("cow", "kine"), ("kine", "kine")] && rs.uncountable == {}
  }

  lemma RedCowKeepsCapital()
    ensures KeepsCapital("redCow", [("cow", "kine"), ("kine", "kine")])
  {
    RedCowCamelSegment();
    assert Has([("cow", "kine"), ("kine", "kine")], "cow");
  }

  lemma CamelIrregular(rs: RuleSet)
    requires HasCowKine(rs)
    ensures Pluralize(rs, "redCow") == "redKine"
  {
    var m := rs.irregular;
    assert !IsBlank("redCow") && IsFirstSuffixKey(m, LowerStr("redCow"), 0) by { RedCowCamelKey(); }
    assert !IsUncountable("redCow", {});
    assert IsFirstOccurrence("redCow", m[0].0, 3) by { RedCowCamelOccurrence(); }
    assert KeepsCapital("redCow", m) by { RedCowKeepsCapital(); }
    assert Capitalize(m[0].1) == "Kine" by { KineCapitalized(); }
    IrregularBranch("redCow", rs.plurals, m, {}, 0, 3);
    RedKineSpelled();
  }

  lemma CamelIrregularPlural()
    ensures Pluralize(CowKine(), "redCow") == "redKine"
  {
    CowKineMaps();
    CamelIrregular(CowKine());
  }

  // ---------------------------------------------------------------------------
  // Rule sets passed to the constructor

  /** A constructor argument with rule lists only builds no irregular or uncountable entries. */
  lemma RulesOnly(plurals: seq<Rule>, singulars: seq<Rule>)
    ensures Create(RuleSetInput(plurals, singulars, [], [])) == RuleSet(plurals, singulars, [], [], {})
  {
    var rs := Create(RuleSetInput(plurals, singulars, [], []));
    NoKeysEmpty(rs.irregular);
    NoKeysEmpty(rs.irregularInverse);
  }

  /** A constructor argument with one irregular pair loads it as `irregular(singular, plural)` would. */
  lemma OnePair(plurals: seq<Rule>, singulars: seq<Rule>, singular: string, plural: string)
    ensures Create(RuleSetInput(plurals, singulars, [(singular, plural)], []))
         == AddIrregular(RuleSet(plurals, singulars, [], [], {}), singular, plural)
  {
    var empty := RuleSet(plurals, singulars, [], [], {});
    var pairs := [(singular, plural)];
    assert LoadUncountable(empty, []) == empty;
    assert pairs[1..] == [];
    assert LoadIrregular(empty, pairs) == LoadIrregular(LoadIrregularPair(empty, singular, plural), []);
  }

  /** `plurals: [[/$/, 's'], [/s$/i, 's']]`: only the first rule matches `apple`. */
  lemma AppleTakesS()
    ensures Pluralize(Create(RuleSetInput([SuffixRule("", "s"), Rule(Pattern("s", true, false), [Literal("s")])], [], [], [])), "apple")
         == "apples"
  {
    var rules := [SuffixRule("", "s"), Rule(Pattern("s", true, false), [Literal("s")])];
    AppleFacts();
    RulesOnly(rules, []);
    assert IsLastMatch(rules, "apple", 0);
    AppendRule("s", "apple");
  }

  lemma AppleFacts()
    ensures ReachesRules("apple", [], {})
    ensures !Matches(Pattern("s", true, false), "apple")
    ensures "apple" + "s" == "apples"
  {
    assert !IsSpace("apple"[0]);
    var tail := "apple"[|"apple"| - 1..];
    assert tail[0] == 'e' && ToUpper(tail[0]) == 'E' && ToUpper("s"[0]) == 'S';
    assert !SameLetters(tail, "s");
  }

  lemma AppleNotSs()
    ensures !Matches(Pattern("ss", true, false), "apple")
  {
    var tail := "apple"[|"apple"| - 2..];
    assert tail[0] == 'l' && ToUpper(tail[0]) == 'L' && ToUpper("ss"[0]) == 'S';
    assert !SameLetters(tail, "ss");
  }

  /** `singular: [[/s$/i, ''], [/(ss)$/i, '$1']]`: neither rule matches `apple`, so it is its own singular. */
  lemma AppleStaysSingular()
    ensures var singulars := [Rule(Pattern("s", true, false), [Literal("")]), Rule(Pattern("ss", true, false), [Group])];
            Singularize(Create(RuleSetInput([], singulars, [], [])), "apple") == "apple"
  {
    var singulars := [Rule(Pattern("s", true, false), [Literal("")]), Rule(Pattern("ss", true, false), [Group])];
    AppleFacts();
    AppleNotSs();
    RulesOnly([], singulars);
    assert NoRuleMatches(singulars, "apple");
  }

  /**
   * `uncountable: ['word']` (the test's `plural:` key is not one the constructor
   * reads): `inflect('word', [])`, with its default empty irregular map, is `word`.
   */
  lemma UncountableWordUnchanged()
    ensures Inflect("word", [], [], Create(RuleSetInput([], [], [], ["word"])).uncountable) == "word"
  {
    WordsArePlain();
    assert LowerStr(["word"][0]) == "word";
    assert "word" in LoweredAll(["word"]);
  }


  /** `singular: [[/s$/i, ''], [/(ss)$/i, '$1']]` with the pair `lens`/`lenses`: `lens` is its own singular. */
  lemma LensStaysSingular()
    ensures var singulars := [Rule(Pattern("s", true, false), [Literal("")]), Rule(Pattern("ss", true, false), [Group])];
            Singularize(Create(RuleSetInput([], singulars, [("lens", "lenses")], [])), "lens") == "lens"
  {
    var singulars := [Rule(Pattern("s", true, false), [Literal("")]), Rule(Pattern("ss", true, false), [Group])];
    LensesArePlain();
    OnePair([], singulars, "lens", "lenses");
    IrregularSingularStable(RuleSet([], singulars, [], [], {}), "lens", "lenses");
  }

  /** `plurals: [[/$/, 's']]` with the pair `person`/`people`: `people` is its own plural. */
  lemma PeopleStaysPlural()
    ensures Pluralize(Create(RuleSetInput([SuffixRule("", "s")], [], [("person", "people")], [])), "people") == "people"
  {
    PeopleArePlain();
    OnePair([SuffixRule("", "s")], [], "person", "people");
    IrregularPluralStable(RuleSet([SuffixRule("", "s")], [], [], [], {}), "person", "people");
  }

  /** `inflect` of a blank word returns it whatever the rules. */
  lemma BlankUnchanged(rules: seq<Rule>)
    ensures Inflect("", rules, [], {}) == ""
    ensures Inflect(" ", rules, [], {}) == " "
  {
  }

  /** `inflect('word', [])` with no irregular entry. */
  lemma NoRulesUnchanged()
    ensures Inflect("word", [], [], {}) == "word"
  {
    assert !IsSpace("word"[0]);
  }

  /** `irregularPairs: [['word', 'wordy']]`, then `inflect` with no regular rules. */
  function WordWordy(): RuleSet {
    Create(RuleSetInput([], [], [("word", "wordy")], []))
  }

  lemma WordInflectsToWordy()
    ensures Inflect("word", [], WordWordy().irregular, {}) == "wordy"
  {
    WordsArePlain();
    OnePair([], [], "word", "wordy");
    IrregularPluralizes(RuleSet([], [], [], [], {}), "word", "wordy");
  }

  lemma WordyInflectsToWord()
    ensures Inflect("wordy", [], WordWordy().irregularInverse, {}) == "word"
  {
    WordsArePlain();
    OnePair([], [], "word", "wordy");
    IrregularSingularizes(RuleSet([], [], [], [], {}), "word", "wordy");
  }

  /** A `[/^(x)$/i, '$1e']` rule appends `e` to the word it matches. */
  lemma GroupThenLiteral(p: Pattern, e: string, w: string)
    requires Matches(p, w) && p.wholeWord
    ensures Apply(Rule(p, [Group, Literal(e)]), w) == w + e
  {
    var t := [Group, Literal(e)];
    assert |w| - |p.literal| == 0 && w[0..] == w && w[..0] == [];
    assert t[1..] == [Literal(e)] && t[1..][1..] == [];
    assert Expand(t[1..][1..], w) == [];
    assert Expand(t[1..], w) == e;
    assert Expand(t, w) == w + e;
  }

  lemma OxReachesRules()
    ensures ReachesRules("ox", [], {})
  {
    assert !IsSpace("ox"[0]);
  }

  /** `inflect('ox', [[/^(ox)$/i, '$1en']])` */
  lemma OxOxen()
    ensures Inflect("ox", [Rule(Pattern("ox", true, true), [Group, Literal("en")])], [], {}) == "oxen"
  {
    var p := Pattern("ox", true, true);
    assert Matches(p, "ox") by {
      assert "ox"[0..] == "ox";
    }
    assert IsLastMatch([Rule(p, [Group, Literal("en")])], "ox", 0);
    OxReachesRules();
    GroupThenLiteral(p, "en", "ox");
  }

  /** `irregularPairs: [['1', '12'], ['2', '22'], ['3', '32']]` */
  function NumberedPairs(): RuleSet {
    Create(RuleSetInput([], [], [("1", "12"), ("2", "22"), ("3", "32")], []))
  }

  lemma NumberedPairsInOrder()
    ensures NumberedPairs()
         == LoadIrregularPair(LoadIrregularPair(LoadIrregularPair(RuleSet([], [], [], [], {}), "1", "12"), "2", "22"), "3", "32")
  {
    var pairs := [("1", "12"), ("2", "22"), ("3", "32")];
    var r0 := RuleSet([], [], [], [], {});
    assert LoadUncountable(r0, []) == r0;
    assert pairs[1..] == [("2", "22"), ("3", "32")];
    assert pairs[1..][1..] == [("3", "32")];
    assert pairs[1..][1..][1..] == [];
  }

  /** Loading a pair leaves the entries of earlier pairs whose keys differ from both of its words. */
  lemma LaterPairKeeps(rs: RuleSet, s: string, p: string, k: string, v: string, w: string)
    requires k != LowerStr(s) && k != LowerStr(p) && w != LowerStr(s) && w != LowerStr(p)
    requires Get(rs.irregular, k) == Some(v) && Get(rs.irregularInverse, w) == Some(k)
    ensures Get(LoadIrregularPair(rs, s, p).irregular, k) == Some(v)
    ensures Get(LoadIrregularPair(rs, s, p).irregularInverse, w) == Some(k)
  {
  }

  lemma NumberedWordsAreLower()
    ensures LowerStr("1") == "1" && LowerStr("12") == "12"
    ensures LowerStr("2") == "2" && LowerStr("22") == "22"
    ensures LowerStr("3") == "3" && LowerStr("32") == "32"
  {
  }

  lemma NumberedPairsLoaded()
    ensures Get(NumberedPairs().irregular, "1") == Some("12")
    ensures Get(NumberedPairs().irregular, "2") == Some("22")
    ensures Get(NumberedPairs().irregular, "3") == Some("32")
    ensures Get(NumberedPairs().irregularInverse, "12") == Some("1")
    ensures Get(NumberedPairs().irregularInverse, "22") == Some("2")
    ensures Get(NumberedPairs().irregularInverse, "32") == Some("3")
  {
    var r1 := LoadIrregularPair(RuleSet([], [], [], [], {}), "1", "12");
    var r2 := LoadIrregularPair(r1, "2", "22");
    NumberedPairsInOrder();
    NumberedWordsAreLower();
    LaterPairKeeps(r1, "2", "22", "1", "12", "12");
    LaterPairKeeps(r2, "3", "32", "1", "12", "12");
    LaterPairKeeps(r2, "3", "32", "2", "22", "22");
  }

  /** `uncountable: ['1', '2', '3']` */
  lemma NumberedUncountables()
    ensures Create(RuleSetInput([], [], [], ["1", "2", "3"])).uncountable == {"1", "2", "3"}
  {
    var words := ["1", "2", "3"];
    NumberedWordsAreLower();
    assert LowerStr(words[0]) == "1" && LowerStr(words[1]) == "2" && LowerStr(words[2]) == "3";
    assert LoweredAll(words) == {"1", "2", "3"};
  }

  // ---------------------------------------------------------------------------
  // plural(/$/, 's'), uncountable('rice')

  function RiceUncountable(): RuleSet {
    AddUncountable(AppendS(Empty()), "rice")
  }

  /** A camel-cased compound whose last segment is uncountable is left alone. */
  lemma FriedRiceUnchanged()
    ensures Pluralize(RiceUncountable(), "FriedRice") == "FriedRice"
    ensures Singularize(RiceUncountable(), "FriedRice") == "FriedRice"
  {
    CamelSegment("Fried", 'R', "ice");
    assert "Fried" + ['R'] + "ice" == "FriedRice";
    assert [ToLower('R')] + "ice" == "rice" == LowerStr("rice");
    AddedUncountableProtects(AppendS(Empty()), "rice", "FriedRice");
  }

  /** A word that merely ends in an uncountable is inflected. */
  lemma PriceTakesS()
    ensures Pluralize(RiceUncountable(), "price") == "prices"
  {
    EmptyHasNothing();
    AppendSIsSuffixRule(Empty());
    assert LowerStr("rice") == "rice";
    assert RiceUncountable().uncountable == {"rice"};
    assert AllLowerOrDigit("price") && !IsSpace("price"[0]);
    PlainWordUncountableExactly("price", {"rice"});
    AppendsS(RiceUncountable(), "price");
  }

  // ---------------------------------------------------------------------------
  // singular(/s$/, ''), plural(/$/, 's'), irregular('settings', 'settings')

  lemma IdenticalIrregular()
    ensures Singularize(AddIrregular(Regular(), "settings", "settings"), "settings") == "settings"
    ensures Pluralize(AddIrregular(Regular(), "settings", "settings"), "settings") == "settings"
  {
    RegularHasNoIrregulars();
    assert HasNoUpper("settings") && !IsSpace("settings"[0]);
    assert LowerStr("settings") == "settings";
    IrregularSingularizes(Regular(), "settings", "settings");
    IrregularPluralizes(Regular(), "settings", "settings");
  }

  // ... then irregular('userPreferences', 'userPreferences')

  function SettingsIrregular(): RuleSet {
    AddIrregular(Regular(), "settings", "settings")
  }

  function PreferencesIrregular(): RuleSet {
    AddIrregular(SettingsIrregular(), "userPreferences", "userPreferences")
  }

  lemma UserPreferencesSpelled()
    ensures LowerStr("userPreferences") == "userpreferences"
    ensures !IsBlank("userPreferences")
  {
    assert !IsSpace("userPreferences"[0]);
  }

  lemma PreferencesSpelled()
    ensures AllLowerOrDigit("references") && IsCamelWordChar("user"[3]) && IsAsciiUpper('P')
    ensures "user" + ['P'] + "references" == "userPreferences"
    ensures [ToLower('P')] + "references" == "preferences"
  {
  }

  /** The camel-cased `userPreferences` ends in the segment `preferences`. */
  lemma UserPreferencesLastWord()
    ensures LastWord("userPreferences") == Some("preferences")
  {
    PreferencesSpelled();
    CamelSegment("user", 'P', "references");
  }

  /** The settings pair leaves only `settings` as a key, which ends neither `userpreferences` nor is `preferences`. */
  lemma SettingsKeys()
    ensures NoSuffixKey(SettingsIrregular().irregular, "userpreferences")
    ensures NoSuffixKey(SettingsIrregular().irregularInverse, "userpreferences")
    ensures SettingsIrregular().uncountable == {}
    ensures !Has(SettingsIrregular().irregular, "preferences")
    ensures !Has(SettingsIrregular().irregularInverse, "preferences")
  {
    RegularHasNoIrregulars();
    assert LowerStr("settings") == "settings";
    assert SettingsIrregular().irregular == [("settings", "settings")];
    assert SettingsIrregular().irregularInverse == [("settings", "settings")];
    assert "userpreferences"[7..] != "settings";
  }

  /** The segment `preferences` is no key after the second pair either, so the camel-cased word keeps its case as given. */
  lemma PreferencesNotKept()
    ensures !KeepsCapital("userPreferences", PreferencesIrregular().irregular)
    ensures !KeepsCapital("userPreferences", PreferencesIrregular().irregularInverse)
  {
    UserPreferencesSpelled();
    UserPreferencesLastWord();
    SettingsKeys();
    assert Get(PreferencesIrregular().irregular, "preferences") == Get(SettingsIrregular().irregular, "preferences");
    assert Get(PreferencesIrregular().irregularInverse, "preferences") == Get(SettingsIrregular().irregularInverse, "preferences");
  }

  /** A camel-cased word registered as its own irregular plural is left as it is by both queries. */
  lemma IdenticalCamelIrregular()
    ensures Singularize(PreferencesIrregular(), "userPreferences") == "userPreferences"
    ensures Pluralize(PreferencesIrregular(), "userPreferences") == "userPreferences"
  {
    UserPreferencesSpelled();
    SettingsKeys();
    PreferencesNotKept();
    IrregularSingularizes(SettingsIrregular(), "userPreferences", "userPreferences");
    IrregularPluralizes(SettingsIrregular(), "userPreferences", "userPreferences");
  }
}
