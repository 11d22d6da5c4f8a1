/**
 * Properties of the case converters: which strings each one leaves alone,
 * idempotence, and how the regular-expression scans relate to simpler
 * reference descriptions and to each other.
 */
module ConverterLaws {
  import opened Chars
  import opened Text
  import opened CaseConverters

  // ---------------------------------------------------------------------------
  // decamelize

  lemma {:induction false} InsertFixedWithoutUpper(s: string)
    requires forall k | 0 <= k < |s| :: !IsAsciiUpper(s[k])
    ensures InsertBoundaryUnderscores(s) == s
    decreases |s|
  {
    if |s| >= 2 {
      InsertFixedWithoutUpper(s[1..]);
      assert [s[0]] + s[1..] == s;
    }
  }

  /** The scan from position `i` (never inside a match) completes the reference prefix. */
  lemma {:induction false} InsertFrom(s: string, i: nat)
    requires i <= |s|
    requires !IsBoundary(s, i)
    ensures UnderscoreAtBoundaries(s, i) + InsertBoundaryUnderscores(s[i..]) == UnderscoreAtBoundaries(s, |s|)
    decreases |s| - i
  {
    var t := s[i..];
    if |t| < 2 {
      if i < |s| {
        CopyStep(s, i);
      }
    } else if IsLowerOrDigit(t[0]) && IsAsciiUpper(t[1]) {
      InsertFrom(s, i + 2);
      BoundaryStep(s, i);
    } else {
      InsertFrom(s, i + 1);
      CopyStep(s, i);
    }
  }

  /** A character that is not at a boundary is copied by both the scan and the reference. */
  lemma CopyStep(s: string, i: nat)
    requires i < |s| && !IsBoundary(s, i)
    requires i + 1 < |s| ==> !(IsLowerOrDigit(s[i]) && IsAsciiUpper(s[i + 1]))
    ensures UnderscoreAtBoundaries(s, i + 1) == UnderscoreAtBoundaries(s, i) + [s[i]]
    ensures InsertBoundaryUnderscores(s[i..]) == [s[i]] + InsertBoundaryUnderscores(s[i + 1..])
  {
    var t := s[i..];
    if |t| >= 2 {
      assert t[1..] == s[i + 1..];
    } else {
      assert t == [s[i]] && s[i + 1..] == [];
    }
  }

  /** A boundary at `i + 1`: both the scan and the reference put the underscore between `s[i]` and `s[i + 1]`. */
  lemma BoundaryStep(s: string, i: nat)
    requires i + 2 <= |s| && !IsBoundary(s, i)
    requires IsLowerOrDigit(s[i]) && IsAsciiUpper(s[i + 1])
    ensures UnderscoreAtBoundaries(s, i + 2) == UnderscoreAtBoundaries(s, i) + [s[i]] + "_" + [s[i + 1]]
    ensures InsertBoundaryUnderscores(s[i..]) == [s[i], '_', s[i + 1]] + InsertBoundaryUnderscores(s[i + 2..])
    ensures !IsBoundary(s, i + 2)
  {
    var t := s[i..];
    assert t[2..] == s[i + 2..];
    assert IsBoundary(s, i + 1);
  }

  /**
   * The left-to-right scan with non-overlapping matches loses no boundary:
   * decamelize puts an underscore at exactly every camel-case boundary, then lowercases.
   */
  lemma DecamelizeInsertsAtEveryBoundary(s: string)
    ensures InsertBoundaryUnderscores(s) == UnderscoreAtBoundaries(s, |s|)
    ensures Decamelize(s) == LowerStr(UnderscoreAtBoundaries(s, |s|))
  {
    assert s[0..] == s;
    InsertFrom(s, 0);
  }

  /** decamelize changes a string exactly when it has a character that lowercasing changes. */
  lemma DecamelizeFixedPoints(s: string)
    ensures Decamelize(s) == s <==> HasNoUpper(s)
  {
    if HasNoUpper(s) {
      InsertFixedWithoutUpper(s);
      LowerStrOfLower(s);
    }
  }

  lemma DecamelizeIdempotent(s: string)
    ensures Decamelize(Decamelize(s)) == Decamelize(s)
  {
    DecamelizeFixedPoints(Decamelize(s));
  }

  // ---------------------------------------------------------------------------
  // dasherize

  /** dasherize leaves exactly the strings with no upper case, no space and no underscore alone. */
  lemma DasherizeFixedPoints(s: string)
    ensures Dasherize(s) == s <==> HasNoUpper(s) && forall k | 0 <= k < |s| :: s[k] != ' ' && s[k] != '_'
  {
    if HasNoUpper(s) && forall k | 0 <= k < |s| :: s[k] != ' ' && s[k] != '_' {
      DecamelizeFixedPoints(s);
    }
  }

  lemma DasherizeIdempotent(s: string)
    ensures Dasherize(Dasherize(s)) == Dasherize(s)
  {
    DasherizeFixedPoints(Dasherize(s));
  }

  /** dasherize turns every space and underscore of the decamelized text into a dash and keeps every other character, '/' included. */
  lemma DasherizeKeepsOtherCharacters(s: string)
    ensures |Dasherize(s)| == |Decamelize(s)|
    ensures forall k | 0 <= k < |Decamelize(s)| ::
      (Dasherize(s)[k] == '-' <==> Decamelize(s)[k] in {'-', ' ', '_'})
      && (Decamelize(s)[k] !in {' ', '_'} ==> Dasherize(s)[k] == Decamelize(s)[k])
  {
  }

  // ---------------------------------------------------------------------------
  // camelize

  lemma {:induction false} DropFixedWithoutSeparators(s: string)
    requires HasNoCamelSeparator(s)
    ensures DropSeparatorRuns(s) == s
    decreases |s|
  {
    if s != [] {
      DropFixedWithoutSeparators(s[1..]);
      assert [s[0]] + s[1..] == s;
    }
  }


  /** camelize leaves exactly the strings with no separator and no capital at the start of a segment alone. */
  lemma CamelizeFixedPoints(s: string)
    ensures Camelize(s) == s <==>
      HasNoCamelSeparator(s) && forall k | IsSegmentStart(s, k) :: !IsAsciiUpper(s[k])
  {
    if HasNoCamelSeparator(s) && forall k | IsSegmentStart(s, k) :: !IsAsciiUpper(s[k]) {
      DropFixedWithoutSeparators(s);
      var r := MapSegmentStarts(s, 0, IsAsciiUpper, ToLower);
      assert forall k | 0 <= k < |s| :: r[k - 0] == s[k];
      assert r == s;
    }
  }

  lemma CamelizeIdempotent(s: string)
    ensures Camelize(Camelize(s)) == Camelize(s)
  {
    CamelizeFixedPoints(Camelize(s));
  }

  /** The characters of `s` that are not separators, in order. */
  function WithoutSeparators(s: string): string
    decreases |s|
  {
    if s == [] then [] else (if IsCamelSeparator(s[0]) then [] else [s[0]]) + WithoutSeparators(s[1..])
  }

  lemma {:induction false} SkipSeparatorRun(s: string, i: nat)
    requires i <= |s|
    ensures WithoutSeparators(s[i..]) == WithoutSeparators(s[RunEnd(s, i, IsCamelSeparator)..])
    decreases |s| - i
  {
    if i < |s| && IsCamelSeparator(s[i]) {
      assert s[i..][1..] == s[i + 1..];
      SkipSeparatorRun(s, i + 1);
    }
  }

  lemma {:induction false} DropKeepsLetters(s: string)
    ensures LowerStr(DropSeparatorRuns(s)) == LowerStr(WithoutSeparators(s))
    decreases |s|
  {
    if s == [] {
    } else if IsCamelSeparator(s[0]) {
      var j := RunEnd(s, 0, IsCamelSeparator);
      assert s[0..] == s;
      SkipSeparatorRun(s, 0);
      if j < |s| {
        var rest := s[j + 1..];
        assert s[j..][1..] == rest;
        assert WithoutSeparators(s) == [s[j]] + WithoutSeparators(rest);
        assert DropSeparatorRuns(s) == [ToUpper(s[j])] + DropSeparatorRuns(rest);
        DropKeepsLetters(rest);
        LowerStrConcat([ToUpper(s[j])], DropSeparatorRuns(rest));
        LowerStrConcat([s[j]], WithoutSeparators(rest));
        CasePairs(s[j]);
        assert LowerStr([ToUpper(s[j])]) == LowerStr([s[j]]);
      }
    } else {
      DropKeepsLetters(s[1..]);
      LowerStrConcat([s[0]], DropSeparatorRuns(s[1..]));
      LowerStrConcat([s[0]], WithoutSeparators(s[1..]));
    }
  }

  /** camelize only deletes separators and changes the case of what is left. */
  lemma CamelizeKeepsLetters(s: string)
    ensures LowerStr(Camelize(s)) == LowerStr(WithoutSeparators(s))
  {
    DropKeepsLetters(s);
    var t := DropSeparatorRuns(s);
    var r := Camelize(s);
    assert forall k | 0 <= k < |t| :: r[k - 0] == if IsAsciiUpper(t[k]) && IsSegmentStart(t, k) then ToLower(t[k]) else t[k];
    assert LowerStr(r) == LowerStr(t);
  }

  // ---------------------------------------------------------------------------
  // camelize against its reference definition

  /** A separator run adds nothing to the reference definition. */
  lemma {:induction false} JoinedSkipsRun(s: string, i: nat, m: nat)
    requires i <= m <= |s|
    requires forall k | i <= k < m :: IsCamelSeparator(s[k])
    ensures CamelJoined(s, m) == CamelJoined(s, i)
    decreases m - i
  {
    if i < m {
      JoinedSkipsRun(s, i, m - 1);
    }
  }

  /** A character that is no separator and follows none is copied by the scan and by the reference. */
  lemma KeptStep(s: string, i: nat)
    requires i < |s| && !IsCamelSeparator(s[i]) && (i == 0 || !IsCamelSeparator(s[i - 1]))
    ensures CamelJoined(s, i) + DropSeparatorRuns(s[i..]) == CamelJoined(s, i + 1) + DropSeparatorRuns(s[i + 1..])
  {
    assert s[i..][1..] == s[i + 1..];
    assert DropSeparatorRuns(s[i..]) == [s[i]] + DropSeparatorRuns(s[i + 1..]);
    assert CamelJoined(s, i + 1) == CamelJoined(s, i) + [s[i]];
  }

  /** The reference definition across a separator run `[i, e)` and the character after it. */
  lemma RunJoined(s: string, i: nat, e: nat)
    requires i < e <= |s|
    requires forall k | i <= k < e :: IsCamelSeparator(s[k])
    requires e < |s| ==> !IsCamelSeparator(s[e])
    ensures e == |s| ==> CamelJoined(s, |s|) == CamelJoined(s, i)
    ensures e < |s| ==> CamelJoined(s, e + 1) == CamelJoined(s, i) + [ToUpper(s[e])]
  {
    JoinedSkipsRun(s, i, e);
    if e < |s| {
      assert IsCamelSeparator(s[e - 1]);
    }
  }

  /** A separator run starting at `i` is dropped, and the character after it (at `e`) is upper-cased. */
  lemma RunStep(s: string, i: nat) returns (e: nat)
    requires i < |s| && IsCamelSeparator(s[i])
    ensures i < e <= |s|
    ensures e == |s| ==> CamelJoined(s, i) + DropSeparatorRuns(s[i..]) == CamelJoined(s, |s|)
    ensures e < |s| ==> !IsCamelSeparator(s[e])
    ensures e < |s| ==> CamelJoined(s, i) + DropSeparatorRuns(s[i..]) == CamelJoined(s, e + 1) + DropSeparatorRuns(s[e + 1..])
  {
    var t := s[i..];
    var j := RunEnd(t, 0, IsCamelSeparator);
    e := i + j;
    forall k | i <= k < e ensures IsCamelSeparator(s[k]) {
      assert t[k - i] == s[k];
    }
    if e < |s| {
      assert t[j] == s[e];
    }
    RunJoined(s, i, e);
    if e < |s| {
      assert t[j + 1..] == s[e + 1..];
      assert DropSeparatorRuns(t) == [ToUpper(s[e])] + DropSeparatorRuns(s[e + 1..]);
    } else {
      assert DropSeparatorRuns(t) == [];
    }
  }

  lemma {:induction false} DropFrom(s: string, i: nat)
    requires i <= |s| && (i == 0 || !IsCamelSeparator(s[i - 1]))
    ensures CamelJoined(s, i) + DropSeparatorRuns(s[i..]) == CamelJoined(s, |s|)
    decreases |s| - i
  {
    if i == |s| {
      assert s[i..] == [];
    } else if !IsCamelSeparator(s[i]) {
      KeptStep(s, i);
      DropFrom(s, i + 1);
    } else {
      var e := RunStep(s, i);
      if e < |s| {
        DropFrom(s, e + 1);
      }
    }
  }

  /** The first pass of camelize removes every separator and upper-cases exactly the characters that follow one. */
  lemma DropSeparatorRunsMeaning(s: string)
    ensures DropSeparatorRuns(s) == CamelJoined(s, |s|)
  {
    DropFrom(s, 0);
    assert s[0..] == s;
  }

  /**
   * camelize, character by character: the reference joining, with an
   * upper-case ASCII letter that starts a `/`-segment lowered.
   */
  lemma CamelizeMeaning(s: string)
    ensures var t := CamelJoined(s, |s|);
      |Camelize(s)| == |t| &&
      forall k | 0 <= k < |t| :: Camelize(s)[k] == if IsAsciiUpper(t[k]) && IsSegmentStart(t, k) then ToLower(t[k]) else t[k]
  {
    DropSeparatorRunsMeaning(s);
    var t := DropSeparatorRuns(s);
    var r := Camelize(s);
    assert forall k | 0 <= k < |t| :: r[k - 0] == if IsAsciiUpper(t[k]) && IsSegmentStart(t, k) then ToLower(t[k]) else t[k];
  }

  // ---------------------------------------------------------------------------
  // underscore

  lemma {:induction false} InsertSkipsUpperRun(s: string, m: nat)
    requires m <= |s|
    requires forall k | 0 <= k < m :: IsAsciiUpper(s[k])
    ensures InsertBoundaryUnderscores(s) == s[..m] + InsertBoundaryUnderscores(s[m..])
    decreases m
  {
    if m > 0 && |s| >= 2 {
      InsertSkipsUpperRun(s[1..], m - 1);
      assert s[1..][..m - 1] == s[1..m];
      assert s[1..][m - 1..] == s[m..];
      assert s[..m] == [s[0]] + s[1..m];
    }
  }

  /**
   * /([a-z\d])([A-Z]+)/g and /([a-z\d])([A-Z])/g insert underscores at the same
   * places: collapsing the upper-case run changes nothing.
   */
  lemma {:induction false} UpperRunsInsertLikeBoundaries(s: string)
    ensures InsertBeforeUpperRuns(s) == InsertBoundaryUnderscores(s)
    decreases |s|
  {
    if |s| < 2 {
    } else if IsLowerOrDigit(s[0]) && IsAsciiUpper(s[1]) {
      var j := RunEnd(s, 1, IsAsciiUpper);
      InsertSkipsUpperRun(s[2..], j - 2);
      UpperRunsInsertLikeBoundaries(s[j..]);
      assert s[2..][..j - 2] == s[2..j];
      assert s[2..][j - 2..] == s[j..];
      assert s[1..j] == [s[1]] + s[2..j];
    } else {
      UpperRunsInsertLikeBoundaries(s[1..]);
    }
  }

  lemma {:induction false} UnderscoringFixedWithoutDashOrSpace(s: string)
    requires HasNoDashOrSpace(s)
    ensures UnderscoreDashesAndSpaces(s) == s
    decreases |s|
  {
    if s != [] {
      UnderscoringFixedWithoutDashOrSpace(s[1..]);
      assert [s[0]] + s[1..] == s;
    }
  }


  /** underscore leaves exactly the strings with no upper case, no dash and no whitespace alone. */
  lemma UnderscoreFixedPoints(s: string)
    ensures Underscore(s) == s <==> HasNoUpper(s) && HasNoDashOrSpace(s)
  {
    if HasNoUpper(s) && HasNoDashOrSpace(s) {
      UpperRunsInsertLikeBoundaries(s);
      InsertFixedWithoutUpper(s);
      UnderscoringFixedWithoutDashOrSpace(s);
      LowerStrOfLower(s);
    }
  }

  lemma UnderscoreIdempotent(s: string)
    ensures Underscore(Underscore(s)) == Underscore(s)
  {
    UnderscoreFixedPoints(Underscore(s));
  }

  lemma {:induction false} SpaceRunUnderLower(t: string, i: nat)
    requires i <= |t|
    ensures RunEnd(LowerStr(t), i, IsSpace) == RunEnd(t, i, IsSpace)
    decreases |t| - i
  {
    if i < |t| && IsSpace(t[i]) {
      SpaceRunUnderLower(t, i + 1);
    }
  }

  lemma LowerStrSuffix(t: string, j: nat)
    requires j <= |t|
    ensures LowerStr(t)[j..] == LowerStr(t[j..])
  {
  }

  lemma {:induction false} LowerCommutesWithUnderscoring(t: string)
    ensures LowerStr(UnderscoreDashesAndSpaces(t)) == UnderscoreDashesAndSpaces(LowerStr(t))
    decreases |t|
  {
    if t != [] {
      if IsSpace(t[0]) {
        var j := RunEnd(t, 0, IsSpace);
        LowerCommutesWithUnderscoring(t[j..]);
        SpaceRunStep(t);
      } else {
        LowerCommutesWithUnderscoring(t[1..]);
        if t[0] == '-' {
          DashStep(t);
        } else {
          KeptCharStep(t);
        }
      }
    }
  }

  /** The whitespace-run case of `LowerCommutesWithUnderscoring`, given the claim for what follows the run. */
  lemma SpaceRunStep(t: string)
    requires t != [] && IsSpace(t[0])
    requires var j := RunEnd(t, 0, IsSpace);
      LowerStr(UnderscoreDashesAndSpaces(t[j..])) == UnderscoreDashesAndSpaces(LowerStr(t[j..]))
    ensures LowerStr(UnderscoreDashesAndSpaces(t)) == UnderscoreDashesAndSpaces(LowerStr(t))
  {
    var j := RunEnd(t, 0, IsSpace);
    var lt := LowerStr(t);
    var rest := UnderscoreDashesAndSpaces(t[j..]);
    assert UnderscoreDashesAndSpaces(lt) == "_" + UnderscoreDashesAndSpaces(LowerStr(t[j..])) by {
      SpaceRunUnderLower(t, 0);
      LowerStrSuffix(t, j);
      LowerKeepsSpace(t[0]);
    }
    calc {
      LowerStr(UnderscoreDashesAndSpaces(t));
      LowerStr("_" + rest);
      { LowerStrConcat("_", rest); LowerUnderscore(); }
      "_" + LowerStr(rest);
    }
  }

  lemma LowerUnderscore()
    ensures LowerStr("_") == "_"
  {
    assert !IsUpperCase('_');
  }

  lemma LowerKeepsSpace(c: char)
    requires IsSpace(c)
    ensures ToLower(c) == c
  {
  }

  /** The dash case of `LowerCommutesWithUnderscoring`, given the claim for the rest. */
  lemma DashStep(t: string)
    requires t != [] && t[0] == '-'
    requires LowerStr(UnderscoreDashesAndSpaces(t[1..])) == UnderscoreDashesAndSpaces(LowerStr(t[1..]))
    ensures LowerStr(UnderscoreDashesAndSpaces(t)) == UnderscoreDashesAndSpaces(LowerStr(t))
  {
    var lt := LowerStr(t);
    var rest := UnderscoreDashesAndSpaces(t[1..]);
    LowerStrSuffix(t, 1);
    assert lt[0] == '-';
    LowerStrConcat("_", rest);
    LowerUnderscore();
  }

  /** The case of `LowerCommutesWithUnderscoring` where the first character is kept, given the claim for the rest. */
  lemma KeptCharStep(t: string)
    requires t != [] && t[0] != '-' && !IsSpace(t[0])
    requires LowerStr(UnderscoreDashesAndSpaces(t[1..])) == UnderscoreDashesAndSpaces(LowerStr(t[1..]))
    ensures LowerStr(UnderscoreDashesAndSpaces(t)) == UnderscoreDashesAndSpaces(LowerStr(t))
  {
    var lt := LowerStr(t);
    var rest := UnderscoreDashesAndSpaces(t[1..]);
    LowerStrSuffix(t, 1);
    LowerKeepsOthers(t[0]);
    LowerStrConcat([t[0]], rest);
  }

  /** Lowercasing makes neither a dash nor whitespace. */
  lemma LowerKeepsOthers(c: char)
    requires c != '-' && !IsSpace(c)
    ensures ToLower(c) != '-' && !IsSpace(ToLower(c))
  {
  }

  /** underscore is decamelize followed by turning each dash and each whitespace run into an underscore. */
  lemma UnderscoreIsUnderscoredDecamelize(s: string)
    ensures Underscore(s) == UnderscoreDashesAndSpaces(Decamelize(s))
  {
    UpperRunsInsertLikeBoundaries(s);
    LowerCommutesWithUnderscoring(InsertBoundaryUnderscores(s));
  }
  // ---------------------------------------------------------------------------
  // underscore against its reference definition

  /** The rest of a whitespace run adds nothing to the reference definition. */
  lemma {:induction false} UnderscoredSkipsRun(s: string, i: nat, m: nat)
    requires i < m <= |s|
    requires forall k | i <= k < m :: IsSpace(s[k])
    ensures UnderscoredPrefix(s, m) == UnderscoredPrefix(s, i + 1)
    decreases m - i
  {
    if i + 1 < m {
      UnderscoredSkipsRun(s, i, m - 1);
      assert s[m - 1] != '-';
    }
  }

  /** A dash becomes one underscore in the scan and in the reference. */
  lemma DashUnderscoreStep(s: string, i: nat)
    requires i < |s| && s[i] == '-'
    ensures UnderscoredPrefix(s, i) + UnderscoreDashesAndSpaces(s[i..]) ==
      UnderscoredPrefix(s, i + 1) + UnderscoreDashesAndSpaces(s[i + 1..])
  {
    assert s[i..][1..] == s[i + 1..];
    assert UnderscoreDashesAndSpaces(s[i..]) == "_" + UnderscoreDashesAndSpaces(s[i + 1..]);
    assert UnderscoredPrefix(s, i + 1) == UnderscoredPrefix(s, i) + "_";
  }

  /** Any other character that is not whitespace is copied by the scan and by the reference. */
  lemma OtherUnderscoreStep(s: string, i: nat)
    requires i < |s| && s[i] != '-' && !IsSpace(s[i])
    ensures UnderscoredPrefix(s, i) + UnderscoreDashesAndSpaces(s[i..]) ==
      UnderscoredPrefix(s, i + 1) + UnderscoreDashesAndSpaces(s[i + 1..])
  {
    assert s[i..][1..] == s[i + 1..];
    assert UnderscoreDashesAndSpaces(s[i..]) == [s[i]] + UnderscoreDashesAndSpaces(s[i + 1..]);
    assert UnderscoredPrefix(s, i + 1) == UnderscoredPrefix(s, i) + [s[i]];
  }

  /** A whitespace run starting at `i` (and not continuing one) becomes a single underscore, ending at `e`. */
  lemma SpaceUnderscoreStep(s: string, i: nat) returns (e: nat)
    requires i < |s| && IsSpace(s[i]) && (i == 0 || !IsSpace(s[i - 1]))
    ensures i < e <= |s| && (e < |s| ==> !IsSpace(s[e]))
    ensures UnderscoredPrefix(s, i) + UnderscoreDashesAndSpaces(s[i..]) == UnderscoredPrefix(s, e) + UnderscoreDashesAndSpaces(s[e..])
  {
    var t := s[i..];
    var j := RunEnd(t, 0, IsSpace);
    e := i + j;
    forall k | i <= k < e ensures IsSpace(s[k]) {
      assert t[k - i] == s[k];
    }
    assert t[j..] == s[e..];
    assert s[i] != '-';
    UnderscoredSkipsRun(s, i, e);
    assert UnderscoreDashesAndSpaces(t) == "_" + UnderscoreDashesAndSpaces(s[e..]);
    assert UnderscoredPrefix(s, i + 1) == UnderscoredPrefix(s, i) + "_";
  }

  lemma {:induction false} UnderscoreFrom(s: string, i: nat)
    requires i <= |s|
    requires i < |s| && IsSpace(s[i]) ==> i == 0 || !IsSpace(s[i - 1])
    ensures UnderscoredPrefix(s, i) + UnderscoreDashesAndSpaces(s[i..]) == UnderscoredPrefix(s, |s|)
    decreases |s| - i
  {
    if i == |s| {
      assert s[i..] == [];
    } else if s[i] == '-' {
      DashUnderscoreStep(s, i);
      UnderscoreFrom(s, i + 1);
    } else if IsSpace(s[i]) {
      var e := SpaceUnderscoreStep(s, i);
      UnderscoreFrom(s, e);
    } else {
      OtherUnderscoreStep(s, i);
      UnderscoreFrom(s, i + 1);
    }
  }

  /** The second pass of underscore writes each dash as `_` and shrinks each whitespace run to one `_`. */
  lemma UnderscoreDashesAndSpacesMeaning(s: string)
    ensures UnderscoreDashesAndSpaces(s) == UnderscoredPrefix(s, |s|)
  {
    UnderscoreFrom(s, 0);
    assert s[0..] == s;
  }

  /**
   * underscore as a composition of the reference definitions: an underscore
   * at every camel-case boundary, then dashes and whitespace runs as `_`,
   * then lower case.
   */
  lemma UnderscoreMeaning(s: string)
    ensures var t := UnderscoreAtBoundaries(s, |s|);
      Underscore(s) == LowerStr(UnderscoredPrefix(t, |t|))
  {
    UpperRunsInsertLikeBoundaries(s);
    DecamelizeInsertsAtEveryBoundary(s);
    UnderscoreDashesAndSpacesMeaning(InsertBoundaryUnderscores(s));
  }


  // ---------------------------------------------------------------------------
  // capitalize

  /** capitalize leaves exactly the strings whose segment-start letters are already capitals alone. */
  lemma CapitalizeFixedPoints(s: string)
    ensures Capitalize(s) == s <==>
      forall k | IsSegmentStart(s, k) && IsCapitalizable(s[k]) :: ToUpper(s[k]) == s[k]
  {
  }

  lemma CapitalizeIdempotent(s: string)
    ensures Capitalize(Capitalize(s)) == Capitalize(s)
  {
    var r := Capitalize(s);
    assert forall k | 0 <= k < |s| :: IsSegmentStart(r, k) <==> IsSegmentStart(s, k);
    CapitalizeFixedPoints(r);
  }

  /** capitalize changes no letter, only its case, so an `i`-flagged pattern cannot tell the two apart. */
  lemma CapitalizeSameLetters(s: string)
    ensures SameLetters(Capitalize(s), s)
  {
  }
}
