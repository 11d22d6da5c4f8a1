/**
 * The five case converters of the string utilities (`decamelize`,
 * `dasherize`, `camelize`, `underscore`, `capitalize`).  Each global regular
 * expression replacement is written as the left-to-right scan the regular
 * expression engine performs: at each position it either matches (and the scan
 * resumes after the match) or copies one character.  The exported wrappers only
 * memoise these functions, so they are modelled by the functions themselves.
 */
module CaseConverters {
  import opened Chars
  import opened Text

  // ---------------------------------------------------------------------------
  // decamelize: str.replace(/([a-z\d])([A-Z])/g, "$1_$2").toLowerCase()

  /** Position `i` is a camel-case boundary: a lower-case letter or digit followed by an upper-case letter. */
  predicate IsBoundary(s: string, i: int) {
    0 < i < |s| && IsLowerOrDigit(s[i - 1]) && IsAsciiUpper(s[i])
  }

  /** The scan of /([a-z\d])([A-Z])/g with replacement "$1_$2". */
  function InsertBoundaryUnderscores(s: string): string
    decreases |s|
  {
    if |s| < 2 then s
    else if IsLowerOrDigit(s[0]) && IsAsciiUpper(s[1]) then [s[0], '_', s[1]] + InsertBoundaryUnderscores(s[2..])
    else [s[0]] + InsertBoundaryUnderscores(s[1..])
  }

  /**
   * Reference definition: the first `n` characters of `s`, each preceded by an
   * underscore when it sits at a camel-case boundary.
   */
  function UnderscoreAtBoundaries(s: string, n: nat): string
    requires n <= |s|
  {
    if n == 0 then []
    else UnderscoreAtBoundaries(s, n - 1) + (if IsBoundary(s, n - 1) then "_" else "") + [s[n - 1]]
  }

  function Decamelize(s: string): (r: string)
    ensures HasNoUpper(r)
  {
    LowerStr(InsertBoundaryUnderscores(s))
  }

  // ---------------------------------------------------------------------------
  // dasherize: decamelize(key).replace(/[ _]/g, "-")

  function DashForSpaceOrUnderscore(c: char): char {
    if c == ' ' || c == '_' then '-' else c
  }

  function Dasherize(s: string): (r: string)
    ensures HasNoUpper(r)
    ensures forall k | 0 <= k < |r| :: r[k] != ' ' && r[k] != '_'
  {
    var d := Decamelize(s);
    seq(|d|, k requires 0 <= k < |d| => DashForSpaceOrUnderscore(d[k]))
  }

  // ---------------------------------------------------------------------------
  // camelize: key.replace(/(\-|\_|\.|\s)+(.)?/g, (_, _, chr) => chr ? chr.toUpperCase() : "")
  //              .replace(/(^|\/)([A-Z])/g, match => match.toLowerCase())

  /** `\-|\_|\.|\s` */
  predicate IsCamelSeparator(c: char) {
    c == '-' || c == '_' || c == '.' || IsSpace(c)
  }

  predicate HasNoCamelSeparator(s: string) {
    forall k | 0 <= k < |s| :: !IsCamelSeparator(s[k])
  }

  /** The scan of /(\-|\_|\.|\s)+(.)?/g: a separator run is dropped and the character after it upper-cased. */
  function DropSeparatorRuns(s: string): (r: string)
    ensures HasNoCamelSeparator(r)
    decreases |s|
  {
    if s == [] then []
    else if IsCamelSeparator(s[0]) then
      var j := RunEnd(s, 0, IsCamelSeparator);
      if j == |s| then [] else [ToUpper(s[j])] + DropSeparatorRuns(s[j + 1..])
    else [s[0]] + DropSeparatorRuns(s[1..])
  }

  /**
   * Reference definition: the characters among the first `n` of `s` that are
   * not separators, each upper-cased when the character before it is one.
   */
  function CamelJoined(s: string, n: nat): string
    requires n <= |s|
  {
    if n == 0 then []
    else if IsCamelSeparator(s[n - 1]) then CamelJoined(s, n - 1)
    else CamelJoined(s, n - 1) + [if 2 <= n && IsCamelSeparator(s[n - 2]) then ToUpper(s[n - 1]) else s[n - 1]]
  }

  /** Position `k` starts a `/`-separated segment. */
  predicate IsSegmentStart(s: string, k: int) {
    0 <= k < |s| && (k == 0 || s[k - 1] == '/')
  }

  /**
   * The scan of /(^|\/)(X)/g from position `i`, where X is the class `sel` and
   * the match is replaced by mapping `f` over it (which leaves '/' alone).
   * The result is `s[i..]` with exactly the segment-start characters of the
   * class mapped by `f`.
   */
  function MapSegmentStarts(s: string, i: nat, sel: char -> bool, f: char -> char): (r: string)
    requires i <= |s|
    requires !sel('/')
    requires 0 < i < |s| && s[i - 1] == '/' ==> !sel(s[i])
    ensures |r| == |s| - i
    ensures forall k | i <= k < |s| ::
      r[k - i] == if sel(s[k]) && IsSegmentStart(s, k) then f(s[k]) else s[k]
    decreases |s| - i
  {
    if i == |s| then []
    else if i == 0 && sel(s[0]) then
      var rest := MapSegmentStarts(s, 1, sel, f);
      assert forall m | 1 <= m < |s| :: ([f(s[0])] + rest)[m] == rest[m - 1];
      [f(s[0])] + rest
    else if s[i] == '/' && i + 1 < |s| && sel(s[i + 1]) then
      var head := ['/', f(s[i + 1])];
      var rest := MapSegmentStarts(s, i + 2, sel, f);
      assert forall m | 2 <= m < |s| - i :: (head + rest)[m] == rest[m - 2];
      head + rest
    else
      var rest := MapSegmentStarts(s, i + 1, sel, f);
      assert forall m | 1 <= m < |s| - i :: ([s[i]] + rest)[m] == rest[m - 1];
      [s[i]] + rest
  }

  function Camelize(s: string): (r: string)
    ensures HasNoCamelSeparator(r)
    ensures forall k | IsSegmentStart(r, k) :: !IsAsciiUpper(r[k])
  {
    var t := DropSeparatorRuns(s);
    var r := MapSegmentStarts(t, 0, IsAsciiUpper, ToLower);
    assert forall k | 0 <= k < |t| :: r[k] == if IsAsciiUpper(t[k]) && IsSegmentStart(t, k) then ToLower(t[k]) else t[k] by {
      forall k | 0 <= k < |t| ensures r[k - 0] == if IsAsciiUpper(t[k]) && IsSegmentStart(t, k) then ToLower(t[k]) else t[k] { }
    }
    r
  }

  // ---------------------------------------------------------------------------
  // underscore: str.replace(/([a-z\d])([A-Z]+)/g, "$1_$2").replace(/\-|\s+/g, "_").toLowerCase()

  /** The scan of /([a-z\d])([A-Z]+)/g with replacement "$1_$2". */
  function InsertBeforeUpperRuns(s: string): string
    decreases |s|
  {
    if |s| < 2 then s
    else if IsLowerOrDigit(s[0]) && IsAsciiUpper(s[1]) then
      var j := RunEnd(s, 1, IsAsciiUpper);
      [s[0], '_'] + s[1..j] + InsertBeforeUpperRuns(s[j..])
    else [s[0]] + InsertBeforeUpperRuns(s[1..])
  }

  predicate HasNoDashOrSpace(s: string) {
    forall k | 0 <= k < |s| :: s[k] != '-' && !IsSpace(s[k])
  }

  /** The scan of /\-|\s+/g with replacement "_". */
  function UnderscoreDashesAndSpaces(s: string): (r: string)
    ensures HasNoDashOrSpace(r)
    decreases |s|
  {
    if s == [] then []
    else if s[0] == '-' then "_" + UnderscoreDashesAndSpaces(s[1..])
    else if IsSpace(s[0]) then "_" + UnderscoreDashesAndSpaces(s[RunEnd(s, 0, IsSpace)..])
    else [s[0]] + UnderscoreDashesAndSpaces(s[1..])
  }

  /**
   * Reference definition: the first `n` characters of `s` with each dash
   * written as `_`, each whitespace run shrunk to a single `_`, and every
   * other character kept.
   */
  function UnderscoredPrefix(s: string, n: nat): string
    requires n <= |s|
  {
    if n == 0 then []
    else if s[n - 1] == '-' then UnderscoredPrefix(s, n - 1) + "_"
    else if IsSpace(s[n - 1]) then UnderscoredPrefix(s, n - 1) + (if 2 <= n && IsSpace(s[n - 2]) then "" else "_")
    else UnderscoredPrefix(s, n - 1) + [s[n - 1]]
  }

  function Underscore(s: string): (r: string)
    ensures HasNoUpper(r)
    ensures HasNoDashOrSpace(r)
  {
    LowerStr(UnderscoreDashesAndSpaces(InsertBeforeUpperRuns(s)))
  }

  // ---------------------------------------------------------------------------
  // capitalize: str.replace(/(^|\/)([a-zÀ-ɏ])/g, match => match.toUpperCase())

  /** `[a-zÀ-ɏ]` */
  predicate IsCapitalizable(c: char) {
    IsAsciiLower(c) || (0xC0 <= c as int <= 0x24F)
  }

  function Capitalize(s: string): (r: string)
    ensures |r| == |s|
    ensures forall k | 0 <= k < |s| :: r[k] == if IsCapitalizable(s[k]) && IsSegmentStart(s, k) then ToUpper(s[k]) else s[k]
  {
    MapSegmentStarts(s, 0, IsCapitalizable, ToUpper)
  }
}
