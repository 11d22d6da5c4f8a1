/**
 * The rule set an inflector holds, how the constructor and the mutators
 * `plural`, `singular`, `uncountable` and `irregular` build it, and the
 * queries `pluralize` and `singularize` it answers.
 */
module RuleSets {
  import opened Options
  import opened Chars
  import opened OrderedMaps
  import opened Rules
  import opened Inflection

  /**
   * `plurals` and `singulars` (the source's `plurals` and `singular`) in push
   * order; `irregular` maps a lowercased singular or plural to the plural,
   * `irregularInverse` maps either to the singular; `uncountable` holds
   * lowercased words (the source's map to `true`).
   */
  datatype RuleSet = RuleSet(
    plurals: seq<Rule>,
    singulars: seq<Rule>,
    irregular: Irregulars,
    irregularInverse: Irregulars,
    uncountable: set<string>)

  /** The constructor's argument (`plurals`, `singular`, `irregularPairs`, `uncountable`); a field the caller leaves out is an empty list. */
  datatype RuleSetInput = RuleSetInput(
    plurals: seq<Rule>,
    singulars: seq<Rule>,
    irregularPairs: seq<(string, string)>,
    uncountable: seq<string>)

  /** Both irregular maps have one entry per key. */
  predicate Valid(rs: RuleSet) {
    DistinctKeys(rs.irregular) && DistinctKeys(rs.irregularInverse)
  }

  function LoweredAll(words: seq<string>): set<string> {
    set k | 0 <= k < |words| :: LowerStr(words[k])
  }

  /** Every lowercased singular and plural of `pairs`. */
  function LoweredPairs(pairs: seq<(string, string)>): set<string> {
    (set k | 0 <= k < |pairs| :: LowerStr(pairs[k].0)) + (set k | 0 <= k < |pairs| :: LowerStr(pairs[k].1))
  }

  /** `loadUncountable(words)` */
  function LoadUncountable(rs: RuleSet, words: seq<string>): (r: RuleSet)
    ensures r.uncountable == rs.uncountable + LoweredAll(words)
    ensures r == rs.(uncountable := r.uncountable)
    decreases |words|
  {
    if words == [] then rs
    else
      assert LoweredAll(words) == {LowerStr(words[0])} + LoweredAll(words[1..]) by {
        forall x | x in LoweredAll(words) ensures x in {LowerStr(words[0])} + LoweredAll(words[1..]) {
          var k :| 0 <= k < |words| && x == LowerStr(words[k]);
          if k > 0 { assert words[k] == words[1..][k - 1]; }
        }
        forall x | x in LoweredAll(words[1..]) ensures x in LoweredAll(words) {
          var k :| 0 <= k < |words[1..]| && x == LowerStr(words[1..][k]);
          assert words[1..][k] == words[k + 1];
        }
      }
      LoadUncountable(rs.(uncountable := rs.uncountable + {LowerStr(words[0])}), words[1..])
  }

  /**
   * One pair of `loadIrregular`: the lowercased singular and plural both map
   * to the plural in `irregular` and to the singular in `irregularInverse`,
   * set in the source's order, so that when the two lowercase alike the later
   * write decides.
   */
  function LoadIrregularPair(rs: RuleSet, singular: string, plural: string): (r: RuleSet)
    ensures r.plurals == rs.plurals && r.singulars == rs.singulars && r.uncountable == rs.uncountable
    ensures Get(r.irregular, LowerStr(plural)) == Some(plural)
    ensures LowerStr(singular) != LowerStr(plural) ==> Get(r.irregular, LowerStr(singular)) == Some(plural)
    ensures Get(r.irregularInverse, LowerStr(singular)) == Some(singular)
    ensures LowerStr(singular) != LowerStr(plural) ==> Get(r.irregularInverse, LowerStr(plural)) == Some(singular)
    ensures forall k | k != LowerStr(singular) && k != LowerStr(plural) ::
      Get(r.irregular, k) == Get(rs.irregular, k) && Get(r.irregularInverse, k) == Get(rs.irregularInverse, k)
    ensures Valid(rs) ==> Valid(r)
  {
    var s := LowerStr(singular);
    var p := LowerStr(plural);
    rs.(irregular := Set(Set(rs.irregular, s, plural), p, plural),
        irregularInverse := Set(Set(rs.irregularInverse, p, singular), s, singular))
  }

  /** Pair `pair` mentions the lowercased word `x`, as its singular or as its plural. */
  predicate Mentions(pair: (string, string), x: string) {
    LowerStr(pair.0) == x || LowerStr(pair.1) == x
  }

  /** `k` is the last pair of `pairs` that mentions `x`. */
  predicate IsLastMention(pairs: seq<(string, string)>, x: string, k: int) {
    0 <= k < |pairs| && Mentions(pairs[k], x) && forall j | k < j < |pairs| :: !Mentions(pairs[j], x)
  }

  /** `loadIrregular(pairs)` */
  function LoadIrregular(rs: RuleSet, pairs: seq<(string, string)>): (r: RuleSet)
    ensures r.plurals == rs.plurals && r.singulars == rs.singulars && r.uncountable == rs.uncountable
    ensures forall k | k in LoweredPairs(pairs) :: Has(r.irregular, k) && Has(r.irregularInverse, k)
    ensures forall k | k !in LoweredPairs(pairs) ::
      Get(r.irregular, k) == Get(rs.irregular, k) && Get(r.irregularInverse, k) == Get(rs.irregularInverse, k)
    ensures Valid(rs) ==> Valid(r)
    decreases |pairs|
  {
    if pairs == [] then rs
    else
      LoweredPairsCons(pairs);
      LoadIrregular(LoadIrregularPair(rs, pairs[0].0, pairs[0].1), pairs[1..])
  }

  lemma LoweredPairsCons(pairs: seq<(string, string)>)
    requires pairs != []
    ensures LoweredPairs(pairs) == {LowerStr(pairs[0].0), LowerStr(pairs[0].1)} + LoweredPairs(pairs[1..])
  {
    var rest := pairs[1..];
    forall k | k in LoweredPairs(rest) ensures k in LoweredPairs(pairs) {
      if j :| 0 <= j < |rest| && k == LowerStr(rest[j].0) {
        assert rest[j] == pairs[j + 1];
      } else {
        var j :| 0 <= j < |rest| && k == LowerStr(rest[j].1);
        assert rest[j] == pairs[j + 1];
      }
    }
    forall k | k in LoweredPairs(pairs) ensures k in {LowerStr(pairs[0].0), LowerStr(pairs[0].1)} + LoweredPairs(rest) {
      if j :| 0 <= j < |pairs| && k == LowerStr(pairs[j].0) {
        if j > 0 { assert pairs[j] == rest[j - 1]; }
      } else {
        var j :| 0 <= j < |pairs| && k == LowerStr(pairs[j].1);
        if j > 0 { assert pairs[j] == rest[j - 1]; }
      }
    }
  }

  /**
   * Every word a pair mentions maps to the plural of the last pair that
   * mentions it in `irregular`, and to that pair's singular in
   * `irregularInverse`: later pairs overwrite earlier ones.
   */
  lemma {:induction false} LoadIrregularLastMention(rs: RuleSet, pairs: seq<(string, string)>)
    ensures var r := LoadIrregular(rs, pairs);
      forall x, k | IsLastMention(pairs, x, k) ::
        Get(r.irregular, x) == Some(pairs[k].1) && Get(r.irregularInverse, x) == Some(pairs[k].0)
    decreases |pairs|
  {
    if pairs != [] {
      var first := LoadIrregularPair(rs, pairs[0].0, pairs[0].1);
      var rest := pairs[1..];
      LoadIrregularLastMention(first, rest);
      var r := LoadIrregular(first, rest);
      assert r == LoadIrregular(rs, pairs);
      forall x, k | IsLastMention(pairs, x, k)
        ensures Get(r.irregular, x) == Some(pairs[k].1) && Get(r.irregularInverse, x) == Some(pairs[k].0)
      {
        if k > 0 {
          assert pairs[k] == rest[k - 1];
          assert forall j | k - 1 < j < |rest| :: rest[j] == pairs[j + 1];
          assert IsLastMention(rest, x, k - 1);
        } else {
          UnmentionedNotLowered(rest, x);
        }
      }
    }
  }

  lemma UnmentionedNotLowered(pairs: seq<(string, string)>, x: string)
    requires forall j | 0 <= j < |pairs| :: !Mentions(pairs[j], x)
    ensures x !in LoweredPairs(pairs)
  {
  }

  /** `new Inflector(ruleSet)`: the given rule lists as they are, then the uncountables, then the irregular pairs. */
  function Create(input: RuleSetInput): (r: RuleSet)
    ensures r.plurals == input.plurals && r.singulars == input.singulars
    ensures r.uncountable == LoweredAll(input.uncountable)
    ensures forall k :: Has(r.irregular, k) <==> k in LoweredPairs(input.irregularPairs)
    ensures forall k :: Has(r.irregularInverse, k) <==> k in LoweredPairs(input.irregularPairs)
    ensures forall x, k | IsLastMention(input.irregularPairs, x, k) ::
      Get(r.irregular, x) == Some(input.irregularPairs[k].1) && Get(r.irregularInverse, x) == Some(input.irregularPairs[k].0)
    ensures Valid(r)
  {
    var empty := RuleSet(input.plurals, input.singulars, [], [], {});
    LoadIrregularLastMention(LoadUncountable(empty, input.uncountable), input.irregularPairs);
    LoadIrregular(LoadUncountable(empty, input.uncountable), input.irregularPairs)
  }

  /** `plural(regex, string)`: the rule is pushed with its replacement lowercased. */
  function AddPlural(rs: RuleSet, pattern: Pattern, replacement: Template): (r: RuleSet)
    ensures |r.plurals| == |rs.plurals| + 1 && forall k | 0 <= k < |rs.plurals| :: r.plurals[k] == rs.plurals[k]
    ensures r.plurals[|rs.plurals|] == Rule(pattern, LowerTemplate(replacement))
    ensures r == rs.(plurals := r.plurals)
  {
    rs.(plurals := rs.plurals + [Rule(pattern, LowerTemplate(replacement))])
  }

  /** `singular(regex, string)` */
  function AddSingular(rs: RuleSet, pattern: Pattern, replacement: Template): (r: RuleSet)
    ensures |r.singulars| == |rs.singulars| + 1 && forall k | 0 <= k < |rs.singulars| :: r.singulars[k] == rs.singulars[k]
    ensures r.singulars[|rs.singulars|] == Rule(pattern, LowerTemplate(replacement))
    ensures r == rs.(singulars := r.singulars)
  {
    rs.(singulars := rs.singulars + [Rule(pattern, LowerTemplate(replacement))])
  }

  /** `uncountable(string)`: lowercased once by the method and once more by `loadUncountable`. */
  function AddUncountable(rs: RuleSet, word: string): (r: RuleSet)
    ensures r == rs.(uncountable := rs.uncountable + {LowerStr(word)})
  {
    LowerStrIdempotent(word);
    LoadUncountable(rs, [LowerStr(word)])
  }

  lemma LowerStrIdempotent(s: string)
    ensures LowerStr(LowerStr(s)) == LowerStr(s)
  {
    forall k | 0 <= k < |s| ensures ToLower(ToLower(s[k])) == ToLower(s[k]) {
      CasePairs(s[k]);
    }
  }

  /** `irregular(singular, plural)`: `loadIrregular` of the one pair. */
  function AddIrregular(rs: RuleSet, singular: string, plural: string): (r: RuleSet)
    ensures Get(r.irregular, LowerStr(singular)) == Some(plural) && Get(r.irregular, LowerStr(plural)) == Some(plural)
    ensures Get(r.irregularInverse, LowerStr(singular)) == Some(singular) && Get(r.irregularInverse, LowerStr(plural)) == Some(singular)
    ensures r.plurals == rs.plurals && r.singulars == rs.singulars && r.uncountable == rs.uncountable
  {
    LoadIrregularPair(rs, singular, plural)
  }

  /** `irregular(singular, plural)` is `loadIrregular([[singular, plural]])`. */
  lemma AddIrregularLoadsOnePair(rs: RuleSet, singular: string, plural: string)
    ensures AddIrregular(rs, singular, plural) == LoadIrregular(rs, [(singular, plural)])
  {
    assert [(singular, plural)][1..] == [];
  }

  /** `_pluralize(word)`: inflect with the plural rules and the irregular map. */
  function Pluralize(rs: RuleSet, word: string): string {
    Inflect(word, rs.plurals, rs.irregular, rs.uncountable)
  }

  /** `_singularize(word)`: inflect with the singular rules and the inverse irregular map. */
  function Singularize(rs: RuleSet, word: string): string {
    Inflect(word, rs.singulars, rs.irregularInverse, rs.uncountable)
  }

  /**
   * A count as `pluralize(count, word)` receives it: the text a template
   * literal renders for it, and what `parseFloat` reads from it (`None` for NaN).
   */
  datatype Count = Count(rendered: string, parsed: Option<real>)

  /** The two call shapes of `pluralize`: `pluralize(word)` and `pluralize(count, word, { withoutCount })`. */
  datatype PluralizeArgs =
    | Word(word: string)
    | Counted(count: Count, word: string, withoutCount: bool)

  /** `_pluralize(wordOrCount, word, options)` */
  function PluralizeWith(rs: RuleSet, args: PluralizeArgs): string {
    match args
    case Word(w) => Pluralize(rs, w)
    case Counted(count, w, withoutCount) =>
      var inflected := if count.parsed == Some(1.0) then w else Pluralize(rs, w);
      if withoutCount then inflected else count.rendered + " " + inflected
  }

  /** A call on an inflector: one of the four mutators or one of the two queries. */
  datatype Call =
    | PluralRule(pattern: Pattern, replacement: Template)
    | SingularRule(pattern: Pattern, replacement: Template)
    | UncountableWord(word: string)
    | IrregularPair(singular: string, plural: string)
    | PluralizeQuery(args: PluralizeArgs)
    | SingularizeQuery(word: string)

  predicate IsQuery(c: Call) {
    c.PluralizeQuery? || c.SingularizeQuery?
  }

  /** What a mutator does to the rule set; a query leaves it alone. */
  function Mutate(rs: RuleSet, c: Call): RuleSet {
    match c
    case PluralRule(pattern, t) => AddPlural(rs, pattern, t)
    case SingularRule(pattern, t) => AddSingular(rs, pattern, t)
    case UncountableWord(w) => AddUncountable(rs, w)
    case IrregularPair(s, p) => AddIrregular(rs, s, p)
    case PluralizeQuery(_) => rs
    case SingularizeQuery(_) => rs
  }

  /** What a query answers under the current rule set. */
  function Answer(rs: RuleSet, c: Call): string
    requires IsQuery(c)
  {
    match c
    case PluralizeQuery(args) => PluralizeWith(rs, args)
    case SingularizeQuery(w) => Singularize(rs, w)
  }

  function QueryCount(calls: seq<Call>): nat
    decreases |calls|
  {
    if calls == [] then 0 else (if IsQuery(calls[0]) then 1 else 0) + QueryCount(calls[1..])
  }

  /** The answers to the queries of `calls`, run in order on `rs` with no cache at all. */
  function Replay(rs: RuleSet, calls: seq<Call>): (out: seq<string>)
    ensures |out| == QueryCount(calls)
    decreases |calls|
  {
    if calls == [] then []
    else if IsQuery(calls[0]) then [Answer(rs, calls[0])] + Replay(rs, calls[1..])
    else Replay(Mutate(rs, calls[0]), calls[1..])
  }
}
