/**
 * Inflection rules: a pattern and a replacement template, as pushed by
 * `plural(regex, string)` and `singular(regex, string)`.
 *
 * The patterns are the end-anchored literal patterns `/text$/` and
 * `/^text$/`, with or without the `i` flag; the template is literal text and
 * `$1`, the text the (wholly parenthesised) pattern matched.  An end-anchored
 * literal can only match at one place, so `word.replace(pattern, template)`
 * rewrites the matching tail of the word and nothing else.
 */
module Rules {
  import opened Chars
  import opened Text

  datatype Pattern = Pattern(literal: string, ignoreCase: bool, wholeWord: bool)

  datatype Piece = Literal(text: string) | Group

  type Template = seq<Piece>

  datatype Rule = Rule(pattern: Pattern, replacement: Template)

  /** `pattern.test(w)` */
  predicate Matches(p: Pattern, w: string) {
    && |p.literal| <= |w|
    && (p.wholeWord ==> |w| == |p.literal|)
    && var tail := w[|w| - |p.literal|..];
       if p.ignoreCase then SameLetters(tail, p.literal) else tail == p.literal
  }

  /** The template with `$1` replaced by the matched text. */
  function Expand(t: Template, matched: string): string
    decreases |t|
  {
    if t == [] then []
    else (match t[0] case Literal(x) => x case Group => matched) + Expand(t[1..], matched)
  }

  /** `w.replace(r.pattern, r.replacement)` */
  function Apply(r: Rule, w: string): (res: string)
    ensures !Matches(r.pattern, w) ==> res == w
    ensures Matches(r.pattern, w) ==>
      var start := |w| - |r.pattern.literal|;
      |res| >= start && res[..start] == w[..start] && res[start..] == Expand(r.replacement, w[start..])
  {
    if Matches(r.pattern, w) then
      var start := |w| - |r.pattern.literal|;
      w[..start] + Expand(r.replacement, w[start..])
    else w
  }

  /** `string.toLowerCase()` of the template: the literal text is lowered, `$1` is unaffected. */
  function LowerTemplate(t: Template): (r: Template)
    ensures |r| == |t|
    ensures forall k | 0 <= k < |t| :: r[k] == match t[k] case Literal(x) => Literal(LowerStr(x)) case Group => Group
  {
    if t == [] then [] else [match t[0] case Literal(x) => Literal(LowerStr(x)) case Group => Group] + LowerTemplate(t[1..])
  }

  /** The rule `[/suffix$/, replacement]`: a literal-suffix rewrite. */
  function SuffixRule(suffix: string, replacement: string): Rule {
    Rule(Pattern(suffix, false, false), [Literal(replacement)])
  }

  /** `[/$/, s]` appends `s` to every word. */
  lemma AppendRule(s: string, w: string)
    ensures Apply(SuffixRule("", s), w) == w + s
  {
    assert w[..|w|] == w;
    assert [Literal(s)][1..] == [];
    assert Expand([Literal(s)], w[|w|..]) == s;
  }

  /** `[/x$/, '']` strips the suffix `x` from exactly the words that end in it. */
  lemma StripRule(x: string, w: string)
    ensures IsSuffix(x, w) ==> Apply(SuffixRule(x, ""), w) == w[..|w| - |x|]
    ensures !IsSuffix(x, w) ==> Apply(SuffixRule(x, ""), w) == w
  {
    if IsSuffix(x, w) {
      assert [Literal("")][1..] == [];
      assert Expand([Literal("")], w[|w| - |x|..]) == "";
    }
  }
}
