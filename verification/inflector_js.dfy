/**
 * The JavaScript `Inflector` class.  Its class body defines `singularize`
 * and `pluralize` twice; the later, uncached definitions replace the memoised
 * ones, so the memo maps are never read or written.  `plural` purges only
 * when `_cacheUsed` is set, which nothing ever sets, and the other mutators
 * do not purge.  The state that matters is the rule set alone.
 */
module InflectorJs {
  import opened Rules
  import opened RuleSets
  import InflectorTs

  datatype Inflector = Inflector(rules: RuleSet)

  /** `new Inflector(ruleSet)`: the same constructor body as the TypeScript class. */
  function New(input: RuleSetInput): (inf: Inflector)
    ensures inf.rules == InflectorTs.New(input).rules
  {
    Inflector(Create(input))
  }

  /** Runs `calls` on one inflector in order and returns the answers of the queries. */
  method Run(inf: Inflector, calls: seq<Call>) returns (answers: seq<string>)
    ensures answers == Replay(inf.rules, calls)
    ensures |answers| == QueryCount(calls)
  {
    var current := inf;
    answers := [];
    var i := 0;
    while i < |calls|
      invariant 0 <= i <= |calls|
      invariant answers + Replay(current.rules, calls[i..]) == Replay(inf.rules, calls)
    {
      var c := calls[i];
      ReplayStep(current.rules, calls[i..]);
      assert calls[i..][0] == c && calls[i..][1..] == calls[i + 1..];
      var out := if IsQuery(c) then [Answer(current.rules, c)] else [];
      assert answers + (out + Replay(Mutate(current.rules, c), calls[i + 1..]))
          == (answers + out) + Replay(Mutate(current.rules, c), calls[i + 1..]);
      answers := answers + out;
      current := Inflector(Mutate(current.rules, c));
      i := i + 1;
    }
    assert calls[i..] == [];
  }

  /** One call of a replay: its answer, if it is a query, then the rest under the rules it leaves. */
  lemma ReplayStep(rs: RuleSet, calls: seq<Call>)
    requires calls != []
    ensures Replay(rs, calls) ==
      (if IsQuery(calls[0]) then [Answer(rs, calls[0])] else []) + Replay(Mutate(rs, calls[0]), calls[1..])
  {
    if IsQuery(calls[0]) {
      assert Mutate(rs, calls[0]) == rs;
    } else {
      assert [] + Replay(Mutate(rs, calls[0]), calls[1..]) == Replay(Mutate(rs, calls[0]), calls[1..]);
    }
  }

  /** The two classes give the same answers to every call sequence on a fresh inflector. */
  method RunBoth(input: RuleSetInput, calls: seq<Call>) returns (ts: seq<string>, js: seq<string>)
    ensures ts == js == Replay(Create(input), calls)
  {
    ts := InflectorTs.Run(InflectorTs.New(input), calls).1;
    js := Run(New(input), calls);
  }
}
