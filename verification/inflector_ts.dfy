/**
 * The TypeScript `Inflector` class: a rule set plus the memo `singularize`
 * keeps.  `pluralize` writes a memo too, but keys it with an array built
 * afresh on every call, so no lookup ever finds an entry and every call
 * computes `_pluralize`; that memo is therefore not part of the state here.
 * Every mutator purges the memos before it changes the rules.
 */
module InflectorTs {
  import opened Options
  import opened Rules
  import opened RuleSets

  datatype Inflector = Inflector(rules: RuleSet, singularCache: map<string, string>)

  /** Every memoised singular is the one the current rules give. */
  predicate CacheCoherent(inf: Inflector) {
    forall w | w in inf.singularCache :: inf.singularCache[w] == Singularize(inf.rules, w)
  }

  /** `new Inflector(ruleSet)` */
  function New(input: RuleSetInput): (inf: Inflector)
    ensures inf.rules == Create(input)
    ensures inf.singularCache == map[]
    ensures CacheCoherent(inf)
  {
    Inflector(Create(input), map[])
  }

  /** `purgeCache()` */
  function PurgeCache(inf: Inflector): (r: Inflector)
    ensures r.rules == inf.rules
    ensures CacheCoherent(r)
  {
    inf.(singularCache := map[])
  }

  /** `singularize(word)`: answered from the memo when present, else computed and memoised. */
  function SingularizeCached(inf: Inflector, word: string): (res: (Inflector, string))
    ensures res.0.rules == inf.rules
    ensures word in res.0.singularCache
    ensures CacheCoherent(inf) ==> res.1 == Singularize(inf.rules, word) && CacheCoherent(res.0)
  {
    if word in inf.singularCache then (inf, inf.singularCache[word])
    else
      var s := Singularize(inf.rules, word);
      (inf.(singularCache := inf.singularCache[word := s]), s)
  }

  /** `plural(regex, string)` */
  function Plural(inf: Inflector, pattern: Pattern, replacement: Template): (r: Inflector)
    ensures r.rules == AddPlural(inf.rules, pattern, replacement)
    ensures CacheCoherent(r)
  {
    Inflector(AddPlural(PurgeCache(inf).rules, pattern, replacement), map[])
  }

  /** `singular(regex, string)` */
  function Singular(inf: Inflector, pattern: Pattern, replacement: Template): (r: Inflector)
    ensures r.rules == AddSingular(inf.rules, pattern, replacement)
    ensures CacheCoherent(r)
  {
    Inflector(AddSingular(PurgeCache(inf).rules, pattern, replacement), map[])
  }

  /** `uncountable(string)` */
  function Uncountable(inf: Inflector, word: string): (r: Inflector)
    ensures r.rules == AddUncountable(inf.rules, word)
    ensures CacheCoherent(r)
  {
    Inflector(AddUncountable(PurgeCache(inf).rules, word), map[])
  }

  /** `irregular(singular, plural)` */
  function Irregular(inf: Inflector, singular: string, plural: string): (r: Inflector)
    ensures r.rules == AddIrregular(inf.rules, singular, plural)
    ensures CacheCoherent(r)
  {
    Inflector(AddIrregular(PurgeCache(inf).rules, singular, plural), map[])
  }

  /** One method call: the new state and, for a query, its answer. */
  function Step(inf: Inflector, c: Call): (res: (Inflector, Option<string>))
    ensures res.1.Some? <==> IsQuery(c)
    ensures res.0.rules == Mutate(inf.rules, c)
    ensures CacheCoherent(inf) ==> CacheCoherent(res.0)
    ensures CacheCoherent(inf) && IsQuery(c) ==> res.1 == Some(Answer(inf.rules, c))
  {
    match c
    case PluralizeQuery(args) => (inf, Some(PluralizeWith(inf.rules, args)))
    case SingularizeQuery(w) =>
      var (next, answer) := SingularizeCached(inf, w);
      (next, Some(answer))
    case _ => (Mutator(inf, c), None)
  }

  /** The mutator a non-query call names. */
  function Mutator(inf: Inflector, c: Call): (r: Inflector)
    requires !IsQuery(c)
    ensures r.rules == Mutate(inf.rules, c)
    ensures CacheCoherent(r)
  {
    match c
    case PluralRule(pattern, t) => Plural(inf, pattern, t)
    case SingularRule(pattern, t) => Singular(inf, pattern, t)
    case UncountableWord(w) => Uncountable(inf, w)
    case IrregularPair(s, p) => Irregular(inf, s, p)
  }

  /**
   * A sequence of calls on one inflector, collecting the answers.  From a
   * coherent memo the answers are those of the rules with no memo at all.
   */
  function Run(inf: Inflector, calls: seq<Call>): (res: (Inflector, seq<string>))
    ensures CacheCoherent(inf) ==> CacheCoherent(res.0) && res.1 == Replay(inf.rules, calls)
    decreases |calls|
  {
    if calls == [] then (inf, [])
    else
      var (next, answer) := Step(inf, calls[0]);
      var (last, rest) := Run(next, calls[1..]);
      (last, (if answer.Some? then [answer.value] else []) + rest)
  }

  /** A fresh inflector answers every call sequence exactly as the uncached rules do. */
  lemma FreshRunIsReplay(input: RuleSetInput, calls: seq<Call>)
    ensures Run(New(input), calls).1 == Replay(Create(input), calls)
  {
  }
}
