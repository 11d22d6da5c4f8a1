# ember-string-inflector in Dafny

This project models the core of ember-string-inflector, which turns English words into their plural and singular forms, and proves properties of that model. The core has three parts.

- **`Inflector.inflect`.** This is the algorithm behind both `pluralize` and `singularize`. It works in four steps:
  1. A blank word comes back unchanged.
  2. A word that is uncountable comes back unchanged. The check applies to the whole lowercased word and to the last segment of a compound word (`red-cow`, `redCow`, `red/cow`).
  3. Otherwise the first irregular key that ends the lowercased word wins. Its first case-insensitive occurrence in the word is replaced by the key's value. The value is capitalized when the word is camelized and its last segment is itself a key.
  4. Otherwise the regular rules are scanned newest first, and the first rule whose pattern matches rewrites the word.
- **The `Inflector` class.** This covers:
  - its constructor;
  - the mutators `plural`, `singular`, `uncountable` and `irregular`;
  - `loadUncountable` and `loadIrregular`;
  - the queries `pluralize` (with its `count` and `withoutCount` form) and `singularize`.

  It exists twice, in TypeScript and in JavaScript. The TypeScript class memoises `singularize` and clears the memo whenever a rule is added. The JavaScript class has no cache in effect.
- **The five case converters.** These are `decamelize`, `dasherize`, `camelize`, `underscore` and `capitalize`, from the string cache.

## How the model is organised

The modules follow the program's structure:

- `Chars`: character classes and case mapping.
- `Text`: suffixes, runs, and case-insensitive search and replace.
- `OrderedMaps`: a JavaScript `Map` as an insertion-ordered list of pairs.
- `Rules`: rule patterns and how a matching rule rewrites a word.
- `CaseConverters`: the string cache's five functions.
- `Inflection`: `inflect` itself.
- `RuleSets`: the rule set the class holds and what each mutator and query does to it.
- `InflectorTs` and `InflectorJs`: the two classes.

The laws live in `ConverterLaws`, `InflectionLaws` and `RuleSetLaws`. The repository's test cases appear as lemmas in `ConverterScenarios` and `InflectorScenarios`.

### Deliberate choices

**Rule patterns.** A rule's regular expression is modelled as a literal that must end the word, which may be empty (`/$/`). The literal can be case-insensitive (`/i`) and can be required to be the whole word (`/^…$/`). The replacement is a template of literal pieces and `$1`, the matched text. This is the fragment the repository's tests use.

**Irregular keys.** They are searched as literal text, ignoring case. This is what the source's `new RegExp(rule, "i")` does for keys without metacharacters. The expression has no `g` flag, so `String.prototype.replace` replaces only the first occurrence.

**Case mapping.** `toLowerCase` and `toUpperCase` are modelled for:
- ASCII;
- Latin-1 (except `ß` and `ÿ`, whose upper cases lie outside the block, and the micro sign `µ`, whose upper case is Greek);
- Latin Extended-A, where capitals and small letters alternate.

`\s` is the full ECMAScript whitespace set.

**`dasherize`.** The source replaces every space and every underscore with its own dash (`/[ _]/g`), so a run of two spaces becomes two dashes. The model follows the code here. A reading that collapses runs into one dash is not what the code does.

**The TypeScript class.** Its `pluralize` memo is keyed by a fresh array on every call. That lookup never succeeds, so the model treats `pluralize` as uncached. Its `singularize` memo is modelled. A coherence invariant states that every memoised answer equals the uncached one.

**The JavaScript class.** Its cached `singularize` and `pluralize` are shadowed by the uncached methods declared later in the same class. The model therefore runs every query against the current rules.

## Model

| member | source | states |
|---|---|---|
| Chars.ToLower | src/inflector/lib/inflector.ts:239 | Lowercasing turns an upper-case letter into a lower-case one, leaves every other character as it is, and never yields an upper-case letter. |
| Chars.ToUpper | src/cache/index.ts:36-42 | Uppercasing turns a lower-case letter into an upper-case one, leaves every other character as it is, and never yields a lower-case letter. |
| Chars.CasePairs | src/inflector/lib/inflector.ts:255-262 | Lowercasing the upper case of a character is lowercasing it, and the reverse. This is why an `i`-flagged search treats a character and its lowercase alike. |
| Chars.LowerStr | src/inflector/lib/inflector.ts:239 | `toLowerCase` keeps the length and lowercases each character in place. |
| Chars.LowerStrOfLower | src/inflector/lib/inflector.ts:239 | A string without upper-case letters is its own lowercase. |
| Chars.LowerStrConcat | src/inflector/lib/inflector.ts:239 | Lowercasing distributes over concatenation. |
| RuleSets.LowerStrIdempotent | src/inflector/lib/inflector.ts:177-180 | Lowercasing twice, as `uncountable` followed by `loadUncountable` does, is lowercasing once. |
| Text.RunStart | src/inflector/lib/inflector.ts:6-8 | The start of the longest trailing run of characters in a class: everything from it on is in the class, and the character before it is not. |
| Text.FindIgnoringCase | src/inflector/lib/inflector.ts:262 | The search finds the leftmost case-insensitive occurrence at or after the start. A result of none means there is no occurrence anywhere from the start on. |
| Text.ReplaceFirstIgnoringCase | src/inflector/lib/inflector.ts:262 | With no occurrence the string is unchanged. Otherwise only the leftmost occurrence is replaced, and the text on both sides is kept. |
| OrderedMaps.IndexOf | src/inflector/lib/inflector.ts:255 | The position of the first entry with the key, found by iterating in insertion order. None means no entry has the key. |
| OrderedMaps.Set | src/inflector/lib/inflector.ts:144-149 | `Map.set`: the key then holds the value and every other key keeps its value. An existing key keeps its position and a new key goes last. Distinct keys stay distinct. |
| OrderedMaps.SameKeysSameIndex | src/inflector/lib/inflector.ts:255 | Two maps with the same keys in the same order are iterated alike, whatever their values. |
| Rules.Apply | src/inflector/lib/inflector.ts:280 | A rule whose pattern does not match leaves the word alone. One that matches keeps the text before the match and replaces the matched tail with the expanded template. |
| Rules.Matches | src/inflector/lib/inflector.ts:270 | `rule.test(word)` for the modelled fragment: the literal ends the word, exactly or ignoring case, and is the whole word when anchored with `^`. `Apply` and `Inflection.SelectRule` state what a match decides. |
| Rules.Expand | src/inflector/lib/inflector.ts:280 | The replacement string with `$1` read as the matched text. `Rules.Apply` states where the expansion goes, and `InflectorScenarios.GroupThenLiteral` and `InflectorScenarios.OxOxen` give it on the repository's test case. |
| Rules.LowerTemplate | src/inflector/lib/inflector.ts:158-161 | The stored replacement is the given one with every literal piece lowercased and `$1` kept. |
| Rules.AppendRule | src/inflector/index.test.js:21-27 | The rule `[/$/, s]` appends `s` to every word. |
| Rules.StripRule | src/inflector/index.test.js:29-35 | The rule `[/x$/, '']` removes `x` from a word that ends in it and leaves every other word alone. |
| CaseConverters.Decamelize | src/cache/index.ts:44-48 | `decamelize` yields no upper-case letter. |
| CaseConverters.InsertBoundaryUnderscores | src/cache/index.ts:44-47 | The left-to-right global replace of `([a-z\d])([A-Z])` by `$1_$2`. `ConverterLaws.DecamelizeInsertsAtEveryBoundary` states its meaning. |
| CaseConverters.Dasherize | src/cache/index.ts:7-11 | `dasherize` yields no upper-case letter, no space and no underscore. |
| CaseConverters.DropSeparatorRuns | src/cache/index.ts:13-20 | Replacing each run of separators (`-`, `_`, `.`, whitespace) and the character after it by that character's upper case, or by nothing at the end of the string, leaves no separator. `ConverterLaws.DropSeparatorRunsMeaning` gives the full mapping. |
| CaseConverters.MapSegmentStarts | src/cache/index.ts:21-23 | Mapping the first character of each `/`-separated segment changes exactly the selected segment starts and keeps the length. |
| CaseConverters.Camelize | src/cache/index.ts:13-24 | `camelize` yields no separator and no upper-case ASCII letter at the start of a segment. |
| CaseConverters.UnderscoreDashesAndSpaces | src/cache/index.ts:27-32 | Turning each dash and each whitespace run into an underscore leaves no dash and no whitespace. `ConverterLaws.UnderscoreDashesAndSpacesMeaning` gives the full mapping. |
| CaseConverters.InsertBeforeUpperRuns | src/cache/index.ts:26-31 | The global replace of `([a-z\d])([A-Z]+)` by `$1_$2`. `ConverterLaws.UpperRunsInsertLikeBoundaries` states its meaning. |
| CaseConverters.Underscore | src/cache/index.ts:26-34 | `underscore` yields no upper-case letter, no dash and no whitespace. |
| CaseConverters.Capitalize | src/cache/index.ts:36-42 | `capitalize` keeps the length, uppercases the capitalizable first letter of every `/`-separated segment, and keeps every other character. |
| ConverterLaws.InsertFixedWithoutUpper | src/cache/index.ts:44-47 | With no upper-case ASCII letter there is no boundary and the scan inserts nothing. |
| ConverterLaws.InsertFrom | src/cache/index.ts:44-47 | The left-to-right global replace, resumed at any position outside a match, produces what remains of the boundary-wise reference. |
| ConverterLaws.DecamelizeInsertsAtEveryBoundary | src/cache/index.ts:44-48 | The global replace of `([a-z\d])([A-Z])` puts an underscore exactly at every lower-or-digit/upper boundary of the input, and `decamelize` is that result lowercased. |
| ConverterLaws.DecamelizeFixedPoints | src/cache/index.ts:44-48 | `decamelize` leaves a string unchanged exactly when it has no upper-case letter. |
| ConverterLaws.DecamelizeIdempotent | src/cache/index.ts:44-48 | Decamelizing twice is decamelizing once. |
| ConverterLaws.DasherizeFixedPoints | src/cache/index.ts:7-11 | `dasherize` leaves a string unchanged exactly when it has no upper-case letter, no space and no underscore. |
| ConverterLaws.DasherizeIdempotent | src/cache/index.ts:7-11 | Dasherizing twice is dasherizing once. |
| ConverterLaws.DasherizeKeepsOtherCharacters | src/cache/index.ts:7-11 | `dasherize` has the length of the decamelized text. Each space or underscore in it becomes a dash, and every other character, `/` included, is kept. |
| ConverterLaws.DropFixedWithoutSeparators | src/cache/index.ts:13-20 | A string without separators passes the separator replace unchanged. |
| ConverterLaws.CamelizeFixedPoints | src/cache/index.ts:13-24 | `camelize` leaves a string unchanged exactly when it has no separator and no upper-case ASCII letter at a segment start. |
| ConverterLaws.CamelizeIdempotent | src/cache/index.ts:13-24 | Camelizing twice is camelizing once. |
| ConverterLaws.SkipSeparatorRun | src/cache/index.ts:15-18 | Skipping a run of separators loses no letter. |
| ConverterLaws.DropKeepsLetters | src/cache/index.ts:13-20 | Up to case, the separator replace keeps exactly the non-separator characters, in order. |
| ConverterLaws.CamelizeKeepsLetters | src/cache/index.ts:13-24 | Up to case, `camelize` keeps exactly the non-separator characters, in order. It only deletes separators and changes case. |
| ConverterLaws.JoinedSkipsRun | src/cache/index.ts:13-20 | A run of separators adds nothing to the reference joining. |
| ConverterLaws.KeptStep | src/cache/index.ts:13-20 | A character that is no separator and follows none is copied unchanged, by the global replace and by the reference joining alike. |
| ConverterLaws.RunJoined | src/cache/index.ts:13-20 | In the reference joining, a separator run followed by a character contributes exactly that character upper-cased, and a run at the end contributes nothing. |
| ConverterLaws.RunStep | src/cache/index.ts:13-20 | One match of the separator-run expression consumes the whole separator run and the character after it, and produces what the reference joining gives for them. |
| ConverterLaws.DropFrom | src/cache/index.ts:13-20 | The global replace, resumed at any position that does not follow a separator, produces what remains of the reference joining. |
| ConverterLaws.DropSeparatorRunsMeaning | src/cache/index.ts:13-20 | For every string, the first replace of `camelize` equals the reference joining: every separator is deleted, the character right after a separator is upper-cased, and every other character is kept. |
| ConverterLaws.CamelizeMeaning | src/cache/index.ts:13-24 | For every string, `camelize` is the reference joining with an upper-case ASCII letter at the start of each `/`-segment lowered. It has the joining's length, and every other character is the joining's. |
| ConverterLaws.InsertSkipsUpperRun | src/cache/index.ts:44-47 | The boundary scan copies a leading run of upper-case letters unchanged. |
| ConverterLaws.UpperRunsInsertLikeBoundaries | src/cache/index.ts:26-31 | `underscore`'s first replace, `([a-z\d])([A-Z]+)`, inserts underscores exactly where `decamelize`'s does. |
| ConverterLaws.UnderscoringFixedWithoutDashOrSpace | src/cache/index.ts:27-32 | With no dash and no whitespace, the dash-and-space replace changes nothing. |
| ConverterLaws.UnderscoreFixedPoints | src/cache/index.ts:26-34 | `underscore` leaves a string unchanged exactly when it has no upper-case letter, no dash and no whitespace. |
| ConverterLaws.UnderscoreIdempotent | src/cache/index.ts:26-34 | Underscoring twice is underscoring once. |
| ConverterLaws.SpaceRunUnderLower | src/cache/index.ts:27-33 | Lowercasing does not change where a whitespace run ends. |
| ConverterLaws.LowerCommutesWithUnderscoring | src/cache/index.ts:32-33 | Lowercasing before or after the dash-and-space replace gives the same string. |
| ConverterLaws.UnderscoreIsUnderscoredDecamelize | src/cache/index.ts:26-48 | `underscore` is `decamelize` followed by turning each dash and each whitespace run into one underscore. |
| ConverterLaws.UnderscoredSkipsRun | src/cache/index.ts:27-32 | The rest of a whitespace run adds nothing to the reference underscoring. |
| ConverterLaws.DashUnderscoreStep | src/cache/index.ts:27-32 | The replace writes a dash as one underscore, as the reference underscoring does. |
| ConverterLaws.OtherUnderscoreStep | src/cache/index.ts:27-32 | A character that is neither a dash nor whitespace is copied by the replace and by the reference underscoring alike. |
| ConverterLaws.SpaceUnderscoreStep | src/cache/index.ts:27-32 | One match of `\s+` consumes the whole whitespace run and produces one underscore, as the reference underscoring does. |
| ConverterLaws.UnderscoreFrom | src/cache/index.ts:27-32 | The global replace, resumed at any position that is not inside a whitespace run, produces what remains of the reference underscoring. |
| ConverterLaws.UnderscoreDashesAndSpacesMeaning | src/cache/index.ts:27-32 | For every string, the replace of each dash and each whitespace run by `_` equals the reference underscoring: each dash becomes one underscore, each whitespace run becomes one underscore, and every other character is kept. |
| ConverterLaws.UnderscoreMeaning | src/cache/index.ts:26-34 | For every string, `underscore` is the composition of the reference definitions: an underscore at every camel-case boundary, then each dash and each whitespace run as one underscore, then lower case. |
| ConverterLaws.CapitalizeFixedPoints | src/cache/index.ts:36-42 | `capitalize` leaves a string unchanged exactly when no capitalizable segment-start letter is lower case. |
| ConverterLaws.CapitalizeIdempotent | src/cache/index.ts:36-42 | Capitalizing twice is capitalizing once. |
| ConverterLaws.CapitalizeSameLetters | src/inflector/lib/inflector.ts:257-262 | A capitalized value equals the original ignoring case, so capitalizing the key does not change what an `i`-flagged search finds. |
| ConverterScenarios.InnerHtmlBoundary | src/cache/index.ts:44-47 | In `innerHTML` the scan inserts one underscore, at the only boundary, and copies the run `HTML`. |
| ConverterScenarios.DecamelizeCamelized | src/cache/index.test.ts:115-119 | `decamelize("innerHTML")` is `inner_html`. |
| ConverterScenarios.DecamelizeWithDigits | src/cache/index.test.ts:120 | `decamelize("size160Url")` is `size160_url`, because a digit followed by a capital is a boundary too. |
| ConverterScenarios.DasherizeCamelized | src/cache/index.test.ts:78 | `dasherize("innerHTML")` is `inner-html`. |
| ConverterScenarios.CapitalizeAccented | src/cache/index.test.ts:65 | `capitalize("šabc")` is `Šabc`. |
| ConverterScenarios.LoveRamenJoined | src/cache/index.ts:13-20 | The first replace of `camelize` turns `I Love Ramen` into `ILoveRamen`. |
| ConverterScenarios.LowersOnlyFirst | src/cache/index.ts:21-23 | In a string without `/`, the second replace of `camelize` lowers only a capital at the start. |
| ConverterScenarios.CamelizeCapitalized | src/cache/index.test.ts:16 | `camelize("I Love Ramen")` is `iLoveRamen`. |
| ConverterScenarios.FavoriteItemsUnderscored | src/cache/index.ts:27-32 | The dash-and-space replace turns `my favorite items` into `my_favorite_items`. |
| ConverterScenarios.UnderscoreSpaced | src/cache/index.test.ts:136 | `underscore("my favorite items")` is `my_favorite_items`. |
| Inflection.IsCamelizedMeaning | src/inflector/lib/inflector.ts:8 | The scan answers yes exactly when some upper-case ASCII letter is followed only by lower-case letters and digits to the end, which is what `/[A-Z][a-z\d]*$/` tests. |
| Inflection.IsBlank | src/inflector/lib/inflector.ts:232-237 | The word is empty or made only of whitespace, as `BLANK_REGEX` tests. `Inflection.Inflect` states that such a word comes back unchanged. |
| Inflection.IsCamelized | src/inflector/lib/inflector.ts:233 | `CAMELIZED_REGEX.test(word)`, computed as a scan. `Inflection.IsCamelizedMeaning` states that it agrees with the regular expression. |
| Inflection.LastWordMeaning | src/inflector/lib/inflector.ts:239-245 | The last segment is the lowercased tail after the last dashed-separator split if there is one, and otherwise after the camel-case split. When neither split exists there is no last segment. |
| Inflection.LastWord | src/inflector/lib/inflector.ts:240-245 | The second group of the dashed or else the camel-case split, lowercased. `Inflection.LastWordMeaning` states its meaning. |
| Inflection.IsUncountable | src/inflector/lib/inflector.ts:247-249 | The lowercased word or its last segment is an uncountable. `Inflection.Inflect` and `RuleSetLaws.AddedUncountableProtects` state what it decides. |
| Inflection.KeepsCapital | src/inflector/lib/inflector.ts:257 | The word is camelized and its last segment is a key of the irregular map. `InflectionLaws.IrregularBranch` states that it decides the capitalization. |
| Inflection.ApplyIrregular | src/inflector/lib/inflector.ts:257-262 | The irregular replace of one key. `InflectionLaws.ApplyIrregularAt` states what it produces. |
| Inflection.FirstSuffixKey | src/inflector/lib/inflector.ts:255-256 | Iterating the irregular map in order finds the first key that ends the lowercased word. There is none exactly when no key ends it. |
| Inflection.SelectRule | src/inflector/lib/inflector.ts:266-278 | The rule chosen is none exactly when there are no rules. Otherwise it is the last-registered rule that matches. When none matches, it is the first rule, which then leaves the word alone. |
| Inflection.ApplySelected | src/inflector/lib/inflector.ts:275-280 | `word.replace(rule, substitution)` with the selected rule, or the word itself when there is none. `Inflection.Inflect` and `InflectionLaws.LaterRuleWins` state the result. |
| Inflection.Inflect | src/inflector/lib/inflector.ts:220-283 | A blank word and an uncountable word come back unchanged. A word no irregular key ends is rewritten by the newest matching rule, and comes back unchanged when no rule matches. |
| InflectionLaws.SuffixOfLowerOccurs | src/inflector/lib/inflector.ts:255-262 | A key that ends the lowercased word occurs, ignoring case, at the tail of the word. So the irregular replace always finds something. |
| InflectionLaws.CapitalizedFirstOccurrence | src/inflector/lib/inflector.ts:257-262 | Capitalizing a key does not move its leftmost case-insensitive occurrence. |
| InflectionLaws.OccurrenceAfterUnlikePrefix | src/inflector/lib/inflector.ts:262 | An occurrence preceded only by characters unlike the key's first letter is the leftmost one. |
| InflectionLaws.ApplyIrregularAt | src/inflector/lib/inflector.ts:257-262 | The irregular replacement splices the value, capitalized when the word keeps its capital, over the leftmost occurrence of the key. |
| InflectionLaws.InflectTakesIrregular | src/inflector/lib/inflector.ts:255-264 | A non-blank countable word that an irregular key ends is answered by the first such key and not by the rules. |
| InflectionLaws.KeyOccurs | src/inflector/lib/inflector.ts:255-262 | A key that ends the lowercased word has a leftmost occurrence in the word. |
| InflectionLaws.IrregularBranch | src/inflector/lib/inflector.ts:255-264 | `inflect` replaces the leftmost occurrence of the first matching key with its value, capitalized exactly when the camelized last segment is itself a key. |
| InflectionLaws.IrregularIgnoresRules | src/inflector/lib/inflector.ts:255-266 | Once an irregular key ends the word, the regular rules make no difference to the answer. |
| InflectionLaws.LastMatchExists | src/inflector/lib/inflector.ts:266-273 | When some rule matches, a last-registered matching rule exists. |
| InflectionLaws.LaterRuleWins | src/inflector/lib/inflector.ts:266-280 | A newly pushed rule that matches decides the answer, and one that does not match changes nothing. |
| InflectionLaws.TrailingRunAfter | src/inflector/lib/inflector.ts:6-8 | The trailing `[a-z\d]*` run starts right after the last character outside it. |
| InflectionLaws.DashedSegment | src/inflector/lib/inflector.ts:239-245 | In `prefix-u`, `prefix_u`, `prefix/u` and `prefix u`, with `u` lower case, the last segment is `u`. |
| InflectionLaws.CamelTail | src/inflector/lib/inflector.ts:239-245 | A capital preceded by a word character and followed only by lower-case letters or digits starts the last segment, and the word is camelized. |
| InflectionLaws.CamelSegment | src/inflector/lib/inflector.ts:239-245 | In `prefixUrest` the last segment is `urest` lowercased, and the word is camelized. |
| InflectionLaws.PlainWordHasNoLastWord | src/inflector/lib/inflector.ts:239-245 | A word of lower-case letters and digits has no last segment of its own. |
| InflectionLaws.PlainWordUncountableExactly | src/inflector/lib/inflector.ts:247-253 | For a plain lower-case word, being uncountable is exact membership. A word that merely ends in an uncountable (`price`, `rice`) is not protected. |
| InflectionLaws.UncountableIgnoresCase | src/inflector/lib/inflector.ts:239-253 | For any rules and any irregular map, a word whose lowercase is uncountable comes back unchanged, whatever its case. |
| RuleSets.LoadUncountable | src/inflector/lib/inflector.ts:135-139 | `loadUncountable` adds the lowercase of every given word and changes nothing else. |
| RuleSets.LoadIrregularPair | src/inflector/lib/inflector.ts:141-150 | The lowercased singular and plural both map to the plural, and both map to the singular in the inverse map. When the two lowercase alike, the later write decides. No other key changes, and keys stay distinct. |
| RuleSets.LoadIrregular | src/inflector/lib/inflector.ts:141-151 | Every lowercased singular and plural of the pairs is a key of both maps. Every other key keeps its value, and the rule lists and the uncountables are untouched. `RuleSets.LoadIrregularLastMention` gives the values. |
| RuleSets.UnmentionedNotLowered | src/inflector/lib/inflector.ts:141-151 | A word that no pair mentions is not among the lowercased words of the pairs. |
| RuleSets.LoadIrregularLastMention | src/inflector/lib/inflector.ts:141-151 | Each word a pair mentions maps, in `irregular`, to the plural of the last pair that mentions it, and in `irregularInverse` to that pair's singular. Later pairs overwrite earlier ones. |
| RuleSets.Create | src/inflector/lib/inflector.ts:92-107 | The constructor keeps the given rule lists. The uncountables are the lowercased given words. The keys of both irregular maps are exactly the lowercased words of the pairs. Each such word maps to the plural, and inversely to the singular, of the last pair that mentions it. |
| RuleSets.AddUncountable | src/inflector/lib/inflector.ts:177-180 | `uncountable(word)` adds the word's lowercase and nothing else. |
| RuleSets.AddPlural | src/inflector/lib/inflector.ts:158-161 | `plural(regex, string)` appends exactly one rule after the existing ones, with the given pattern and the lowercased template. Nothing else in the rule set changes. |
| RuleSets.AddSingular | src/inflector/lib/inflector.ts:168-171 | `singular(regex, string)` appends exactly one singular rule after the existing ones, with the given pattern and the lowercased template. Nothing else in the rule set changes. |
| RuleSets.AddIrregular | src/inflector/lib/inflector.ts:187-190 | After `irregular(s, p)`, the lowercases of `s` and `p` both map to `p` in `irregular` and to `s` in `irregularInverse`. The rule lists and the uncountables are unchanged. |
| RuleSets.AddIrregularLoadsOnePair | src/inflector/lib/inflector.ts:187-190 | `irregular(s, p)` is `loadIrregular` of the single pair `[s, p]`. |
| RuleSets.Pluralize | src/inflector/lib/inflector.ts:192-199 | `_pluralize(word)`: `inflect` with the plural rules and the irregular map. `RuleSetLaws.IrregularPluralizes` and `RuleSetLaws.AddedPluralDecides` state what it answers. |
| RuleSets.Singularize | src/inflector/lib/inflector.ts:208-210 | `_singularize(word)`: `inflect` with the singular rules and the inverse map. `RuleSetLaws.IrregularSingularizes` and `RuleSetLaws.AddedSingularDecides` state what it answers. |
| RuleSets.PluralizeWith | src/inflector/lib/inflector.ts:192-206 | Both call shapes of `_pluralize`. `RuleSetLaws.CountedForms` states the counted forms. |
| RuleSets.Replay | src/inflector/lib/inflector.ts:109-210 | Running calls on the uncached rules gives exactly one answer per query. |
| RuleSetLaws.SetNewSuffixKey | src/inflector/lib/inflector.ts:144-149 | A key that ends the word, set in a map none of whose keys ends it, is appended and then found first. |
| RuleSetLaws.SetKeepsFirstSuffixKey | src/inflector/lib/inflector.ts:144-149 | Setting any key keeps the first entry whose key ends the word first. That entry takes the new value only when its own key is set. |
| RuleSetLaws.SetKeepsNoSuffixKey | src/inflector/lib/inflector.ts:144-149 | Setting a key that does not end the word keeps the word free of matching keys. |
| RuleSetLaws.FirstSetFound | src/inflector/lib/inflector.ts:144-149 | After setting `a` and then `b` on a map where no key ends the word, a key `a` that ends the word is found first. It holds the later value when `b` is `a`. |
| RuleSetLaws.SecondSetFound | src/inflector/lib/inflector.ts:144-149 | After two sets where the second key ends the word, the second key is found first, holding its value. |
| RuleSetLaws.LowerWordNotCamelized | src/inflector/lib/inflector.ts:233 | A word without upper-case letters is not camelized, so its irregular value is not capitalized. |
| RuleSetLaws.ReplaceWholeWord | src/inflector/lib/inflector.ts:262 | Replacing a word's first occurrence of itself gives the replacement. |
| RuleSetLaws.LowerFormAtStart | src/inflector/lib/inflector.ts:262 | A word's own lowercase first occurs in it, ignoring case, at the start. |
| RuleSetLaws.SpliceWhole | src/inflector/lib/inflector.ts:262 | Splicing a value over a key as long as the whole word gives the value. |
| RuleSetLaws.WholeWordIrregular | src/inflector/lib/inflector.ts:255-264 | A non-blank countable word whose lowercase is its own first matching key inflects to that key's value, capitalized exactly when the word keeps its capital. |
| RuleSetLaws.IrregularPluralizes | src/inflector/lib/inflector.ts:187-190 | After `irregular(s, p)`, a non-blank countable `s` whose lowercase no earlier key ends pluralizes to `p`, capitalized exactly when `s` is camelized and its last segment is a key; a word without capitals gives `p` itself. |
| RuleSetLaws.IrregularSingularizes | src/inflector/lib/inflector.ts:187-190 | After `irregular(s, p)`, a non-blank countable `p` whose lowercase no earlier inverse key ends singularizes to `s`, capitalized exactly when `p` is camelized and its last segment is an inverse key; a word without capitals gives `s` itself. |
| RuleSetLaws.IrregularPluralStable | src/inflector/lib/inflector.ts:187-190 | After `irregular(s, p)`, `pluralize(p)` is `p` (capitalized in the camelized case) for a non-blank countable `p` that no earlier key ends, provided the lowercase of `s` is that of `p` or does not end it. |
| RuleSetLaws.IrregularSingularStable | src/inflector/lib/inflector.ts:187-190 | After `irregular(s, p)`, `singularize(s)` is `s` (capitalized in the camelized case) for a non-blank countable `s` that no earlier inverse key ends, provided the lowercase of `p` is that of `s` or does not end it. |
| RuleSetLaws.AddedPluralDecides | src/inflector/lib/inflector.ts:158-161 | For a word that reaches the rules, `plural(regex, string)` decides the plural when the regex matches and changes nothing otherwise. |
| RuleSetLaws.AddedSingularDecides | src/inflector/lib/inflector.ts:168-171 | The same for `singular(regex, string)` and `singularize`. |
| RuleSetLaws.AddedUncountableProtects | src/inflector/lib/inflector.ts:177-180 | After `uncountable(u)`, every word equal to `u` up to case, and every compound whose last segment is `u`, is left alone by both queries. |
| RuleSetLaws.CountedForms | src/inflector/lib/inflector.ts:192-206 | `pluralize(count, word)` is the rendered count, a space, then the inflected word. The inflected word is the word itself when the count parses to 1, and the plural otherwise. `withoutCount` drops the prefix. |
| RuleSetLaws.NoKeysEmpty | src/inflector/lib/inflector.ts:92-107 | A map with no keys is empty. |
| RuleSetLaws.AppendSRule | src/inflector/index.test.js:21-27 | With only the rule `[/$/, 's']`, every non-blank word pluralizes by appending `s`. |
| RuleSetLaws.StripSRule | src/inflector/index.test.js:29-35 | With only the rule `[/s$/, '']`, every non-blank word ending in `s` singularizes by dropping it. |
| RuleSetLaws.SuffixRulesRoundTrip | src/inflector/index.test.js:21-35 | With those two rules, singularizing undoes pluralizing for every word. |
| InflectorTs.New | src/inflector/lib/inflector.ts:92-107 | A new inflector holds the constructed rule set and a coherent, empty memo. |
| InflectorTs.PurgeCache | src/inflector/lib/inflector.ts:109-112 | `purgeCache` keeps the rules and leaves the memo coherent. |
| InflectorTs.SingularizeCached | src/inflector/lib/inflector.ts:114-120 | The memoised `singularize` keeps the rules and records the word. On a coherent inflector its answer is the uncached singular, and the memo stays coherent. |
| InflectorTs.Plural | src/inflector/lib/inflector.ts:158-161 | `plural` pushes the rule and leaves a coherent memo. |
| InflectorTs.Singular | src/inflector/lib/inflector.ts:168-171 | `singular` pushes the rule and leaves a coherent memo. |
| InflectorTs.Uncountable | src/inflector/lib/inflector.ts:177-180 | `uncountable` adds the word and leaves a coherent memo. |
| InflectorTs.Irregular | src/inflector/lib/inflector.ts:187-190 | `irregular` loads the pair and leaves a coherent memo. |
| InflectorTs.Mutator | src/inflector/lib/inflector.ts:158-190 | Each mutator changes the rules as `RuleSets.Mutate` says and leaves a coherent memo. |
| InflectorTs.Step | src/inflector/lib/inflector.ts:109-210 | One call changes the rules as its mutator says and answers exactly when it is a query. From a coherent state the answer is the uncached one and coherence is kept. |
| InflectorTs.Run | src/inflector/lib/inflector.ts:109-210 | A sequence of calls from a coherent state answers exactly as the uncached replay and stays coherent. |
| InflectorTs.FreshRunIsReplay | src/inflector/lib/inflector.ts:92-210 | A fresh TypeScript inflector answers every call sequence as the uncached rules do. |
| InflectorJs.Run | src/inflector/lib/inflector.js:124-185 | The JavaScript inflector answers each query against the rules as the calls before it left them. |
| InflectorJs.ReplayStep | src/inflector/lib/inflector.js:124-185 | A replay is the first call's answer, if it is a query, followed by the replay of the rest under the rules that call leaves. |
| InflectorJs.RunBoth | src/inflector/lib/inflector.js:74-247 | The TypeScript and JavaScript classes give the same answers to every call sequence on a fresh inflector. |
| InflectorJs.New | src/inflector/lib/inflector.js:74-90 | The JavaScript constructor builds the same rule set as the TypeScript one. |
| InflectorScenarios.EmptyHasNothing | src/inflector/lib/inflector.ts:92-107 | An inflector built from an empty rule set has no rules, no irregulars and no uncountables. |
| InflectorScenarios.AppendsS | src/inflector/index.test.js:21-27 | With only `[/$/, 's']` and no irregulars, a countable non-blank word gains an `s`. |
| InflectorScenarios.PluralizeAppendsS | src/inflector/index.test.js:21-27 | After `plural(/$/, 's')` on an empty inflector, every non-blank word gains an `s`. |
| InflectorScenarios.NoRuleNoChange | src/inflector/index.test.js:21-35 | Without rules, `cow` and `cows` come back unchanged. |
| InflectorScenarios.CountsIncluded | src/inflector/index.test.js:14-19 | `pluralize(1, 'cat')` is `1 cat`, `pluralize(5, 'cat')` is `5 cats`, and with `withoutCount` it is `cats`. |
| InflectorScenarios.UncountableCow | src/inflector/index.test.js:37-42 | `cow` pluralizes to `cows` until `uncountable('cow')`, and afterwards stays `cow`. |
| InflectorScenarios.UncountableCamelCompound | src/inflector/index.test.js:37-46 | `redCow` stays as it is once `cow` is uncountable. |
| InflectorScenarios.UncountableDashedCompound | src/inflector/index.test.js:37-46 | `red-cow` stays as it is once `cow` is uncountable. |
| InflectorScenarios.UncountableNamespacedCompound | src/inflector/index.test.js:37-46 | `red/cow` stays as it is once `cow` is uncountable. |
| InflectorScenarios.CowKineMaps | src/inflector/lib/inflector.ts:141-151 | `irregular('cow', 'kine')` fills both maps with both words, in write order. |
| InflectorScenarios.CowPluralizesToKine | src/inflector/index.test.js:48-67 | After `irregular('cow', 'kine')`, `pluralize('cow')` is `kine`. |
| InflectorScenarios.KineSingularizesToCow | src/inflector/index.test.js:48-67 | After `irregular('cow', 'kine')`, `singularize('kine')` is `cow`. |
| InflectorScenarios.DashedIrregular | src/inflector/lib/inflector.ts:255-264 | Any rule set whose irregular map is `cow`, `kine` pluralizes `red-cow` to `red-kine`. |
| InflectorScenarios.DashedIrregularPlural | src/inflector/index.test.js:70 | `pluralize('red-cow')` is `red-kine`. |
| InflectorScenarios.CamelIrregular | src/inflector/lib/inflector.ts:255-264 | Any rule set whose irregular map is `cow`, `kine` pluralizes `redCow` to `redKine`, capital kept. |
| InflectorScenarios.CamelIrregularPlural | src/inflector/index.test.js:78 | `pluralize('redCow')` is `redKine`. |
| InflectorScenarios.IdenticalIrregular | src/inflector/index.test.js:84-97 | `irregular('settings', 'settings')` makes both queries leave `settings` alone. |
| InflectorScenarios.UserPreferencesLastWord | src/inflector/lib/inflector.ts:240-245 | The last segment of `userPreferences` is `preferences`. |
| InflectorScenarios.SettingsKeys | src/inflector/index.test.js:91-92 | After the two identical pairs, no key ends `userpreferences` before its own, and `preferences` is not a key. |
| InflectorScenarios.PreferencesNotKept | src/inflector/lib/inflector.ts:257 | `userPreferences` keeps no capital, because its last segment is not a key. |
| InflectorScenarios.IdenticalCamelIrregular | src/inflector/index.test.js:84-100 | After `irregular('userPreferences', 'userPreferences')` too, both queries leave the camel-case `userPreferences` alone. |
| InflectorScenarios.RulesOnly | src/inflector/lib/inflector.ts:92-107 | A constructor input with rules only gives exactly those rules and nothing else. |
| InflectorScenarios.OnePair | src/inflector/lib/inflector.ts:92-107 | A constructor input with one irregular pair gives the maps that pair loads. |
| InflectorScenarios.AppleTakesS | src/inflector/index.test.js:104-113 | With `[/$/, 's']` then `[/s$/i, 's']`, `apple` pluralizes to `apples`. |
| InflectorScenarios.AppleStaysSingular | src/inflector/index.test.js:115-124 | With the singular rules `[/s$/i, '']` and `[/(ss)$/i, '$1']`, neither rule matches `apple`, so `singularize('apple')` is `apple`. |
| InflectorScenarios.LensStaysSingular | src/inflector/index.test.js:126-138 | With the irregular pair `lens`/`lenses`, `singularize('lens')` is `lens` despite the strip-`s` rule. |
| InflectorScenarios.PeopleStaysPlural | src/inflector/index.test.js:140-151 | With the irregular pair `person`/`people`, `pluralize('people')` is `people`. |
| InflectorScenarios.NumberedPairsLoaded | src/inflector/index.test.js:177-193 | The constructor loads `1`/`12`, `2`/`22` and `3`/`32` into both maps. |
| InflectorScenarios.LaterPairKeeps | src/inflector/lib/inflector.ts:141-151 | Loading a pair leaves the entries of unrelated words as they were. |
| InflectorScenarios.NumberedUncountables | src/inflector/index.test.js:195-207 | The constructor's uncountables `1`, `2`, `3` are exactly those words. |
| InflectorScenarios.BlankUnchanged | src/inflector/index.test.js:209-214 | `inflect` returns the empty and the blank word unchanged. |
| InflectorScenarios.NoRulesUnchanged | src/inflector/index.test.js:216-220 | `inflect('word', [])` is `word`. |
| InflectorScenarios.UncountableWordUnchanged | src/inflector/index.test.js:222-235 | An inflector built with the uncountable `word` returns `word` from `inflect('word', [])`. |
| InflectorScenarios.WordInflectsToWordy | src/inflector/index.test.js:237-248 | With the irregular pair `word`/`wordy`, inflecting `word` through the irregular map gives `wordy`. |
| InflectorScenarios.WordyInflectsToWord | src/inflector/index.test.js:237-248 | Through the inverse map, `wordy` gives `word`. |
| InflectorScenarios.GroupThenLiteral | src/inflector/index.test.js:257-262 | A whole-word rule whose template is `$1` then a literal appends the literal. |
| InflectorScenarios.OxOxen | src/inflector/index.test.js:257-262 | The rule `[/^(ox)$/i, '$1en']` turns `ox` into `oxen`. |
| InflectorScenarios.FriedRiceUnchanged | src/inflector/index.test.js:311-319 | With `rice` uncountable, `FriedRice` comes back unchanged from both queries. |
| InflectorScenarios.PriceTakesS | src/inflector/index.test.js:301-304 | With `rice` uncountable, `price` still pluralizes to `prices`. |

## Left out

- **Regular expressions in general.** Rule patterns are the literal-suffix fragment described above. Lookarounds, character classes, alternation and replacement references other than `$1` are not modelled.
- **Metacharacters in irregular keys.** The source turns each key into a regular expression. A key holding metacharacters would be read as a pattern, and the model reads it as literal text.
- **Special patterns in replacement strings.** `String.prototype.replace` expands `$$`, `$&`, `` $` `` and `$'` in the irregular value. The model splices the value literally, so a value holding `$` can differ from the source.
- Text.ReplaceFirstIgnoringCase: splices the replacement literally, without the `$` patterns above.
- Inflection.ApplyIrregular: splices the irregular value literally, without the `$` patterns above.
- **Rule patterns with the `g` flag.** A stored `/g` rule keeps its `lastIndex` between `rule.test(word)` calls. Such patterns are outside the modelled fragment.
- **Numbers.** `parseFloat` and the rendering of the count are not modelled. A count is given as its rendered text and its parsed value (`Count`).
- Chars.ToUpper: maps some characters to themselves where JavaScript's `toUpperCase` does not. These are every character outside ASCII, Latin-1 and Latin Extended-A, and also `µ`, `ß`, `ÿ`, `ı`, `ŉ` and `ſ`. JavaScript maps `µ` to the Greek `Μ`. For example, JavaScript maps `ß` to `SS` and the Latin Extended-B letter `ƀ` to `Ƀ`. So `capitalize` can differ from the source on a segment that starts with one of these letters.
- Chars.ToLower: maps some characters to themselves where JavaScript's `toLowerCase` does not. These are every character outside ASCII, Latin-1 and Latin Extended-A, and also `İ` and `Ÿ`. JavaScript lowercases `İ` to two characters. Only words containing such letters are affected.
- **The `Cache` class in src/cache/index.ts.** Its memoisation only makes repeated calls cheaper, so the converters are modelled as the functions it wraps.
- **`defaultRules`, the `Inflector.inflector` singleton and `src/inflector/lib/string.ts`.** These are not part of this model. The tests that rely on the default English rules (`women`, `salespeople`, `subspecies`, `SuperMan`) are not stated as lemmas.
- **Aliasing the caller's arrays.** The constructor shares the caller's rule arrays instead of copying them. Later pushes are visible to the caller, which a value-based model cannot show.
- **Growth of the TypeScript `_pluralsCache`.** The memo is written under a fresh array key on every call and never read, so it affects memory only.
- **Rules given as strings instead of regular expressions.** The tests at src/inflector/index.test.js:153-175 pass string-typed rules and only count them, so they are not modelled.
- **The `plural:` key of the test at src/inflector/index.test.js:222-235.** The constructor reads `plurals`, so this key is ignored. The lemma `InflectorScenarios.UncountableWordUnchanged` therefore builds the inflector from the uncountable alone.
- InflectorScenarios.FriedRiceUnchanged: the repository's test runs this case with the default rules. The lemma uses an inflector whose only contents are the rule `[/$/, 's']` and the uncountable `rice`.
- InflectorScenarios.PriceTakesS: the repository's test runs this case with the default rules. The lemma uses an inflector whose only contents are the uncountable `rice` and the rule `[/$/, 's']`.
- RuleSets.LoadIrregular: the position a new key takes in the insertion order is stated one pair at a time, by `RuleSets.LoadIrregularPair` and `OrderedMaps.Set`, and not for a whole list of pairs.
- RuleSets.Create: the same holds for the irregular pairs the constructor loads.
