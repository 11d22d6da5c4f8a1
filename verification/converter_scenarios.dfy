/** The case converters on examples the repository's tests check. */
module ConverterScenarios {
  import opened Chars
  import opened Text
  import opened CaseConverters
  import opened ConverterLaws

  /** The scan of `"rHTML"`: the boundary at the front, then an upper-case run copied as it is. */
  lemma BoundaryBeforeHtml()
    ensures InsertBoundaryUnderscores("rHTML") == "r_HTML"
  {
    InsertSkipsUpperRun("TML", 3);
    assert "TML"[..3] == "TML" && "TML"[3..] == "";
  }

  /** A leading character that does not start a boundary is copied and the scan goes on after it. */
  lemma CopiesLeading(c: char, s: string)
    requires s != [] && !(IsLowerOrDigit(c) && IsAsciiUpper(s[0]))
    ensures InsertBoundaryUnderscores([c] + s) == [c] + InsertBoundaryUnderscores(s)
  {
    assert ([c] + s)[1..] == s;
  }

  /** The scan step of `decamelize("innerHTML")`: one underscore, at the only boundary. */
  lemma InnerHtmlBoundary()
    ensures InsertBoundaryUnderscores("innerHTML") == "inner_HTML"
  {
    NerHtmlBoundary();
    CopiesLeading('n', "nerHTML");
    CopiesLeading('i', "nnerHTML");
  }

  lemma NerHtmlBoundary()
    ensures InsertBoundaryUnderscores("nerHTML") == "ner_HTML"
  {
    BoundaryBeforeHtml();
    CopiesLeading('e', "rHTML");
    CopiesLeading('n', "erHTML");
  }

  lemma InnerHtmlLowered()
    ensures LowerStr("inner_HTML") == "inner_html"
  {
  }

  lemma DecamelizeCamelized()
    ensures Decamelize("innerHTML") == "inner_html"
  {
    InnerHtmlBoundary();
    InnerHtmlLowered();
  }

  lemma DasherizeCamelized()
    ensures Dasherize("innerHTML") == "inner-html"
  {
    DecamelizeCamelized();
    DasherizeKeepsOtherCharacters("innerHTML");
    var r := Dasherize("innerHTML");
    assert forall k | 0 <= k < 10 :: r[k] == "inner-html"[k];
  }

  /** The scan of `"0Url"`: the digit/capital boundary at the front, then `rl` copied. */
  lemma BoundaryBeforeUrl()
    ensures InsertBoundaryUnderscores("0Url") == "0_Url"
  {
    assert "0Url"[2..] == "rl" && "rl"[1..] == "l";
  }

  lemma E160UrlBoundary()
    ensures InsertBoundaryUnderscores("e160Url") == "e160_Url"
  {
    BoundaryBeforeUrl();
    CopiesLeading('6', "0Url");
    CopiesLeading('1', "60Url");
    CopiesLeading('e', "160Url");
  }

  /** The scan step of `decamelize("size160Url")`: a digit followed by a capital is a boundary too. */
  lemma Size160UrlBoundary()
    ensures InsertBoundaryUnderscores("size160Url") == "size160_Url"
  {
    Ize160UrlBoundary();
    CopiesLeading('s', "ize160Url");
  }

  lemma Ize160UrlBoundary()
    ensures InsertBoundaryUnderscores("ize160Url") == "ize160_Url"
  {
    Ze160UrlBoundary();
    CopiesLeading('i', "ze160Url");
  }

  lemma Ze160UrlBoundary()
    ensures InsertBoundaryUnderscores("ze160Url") == "ze160_Url"
  {
    E160UrlBoundary();
    CopiesLeading('z', "e160Url");
  }

  lemma Size160UrlLowered()
    ensures LowerStr("size160_Url") == "size160_url"
  {
  }

  lemma DecamelizeWithDigits()
    ensures Decamelize("size160Url") == "size160_url"
  {
    Size160UrlBoundary();
    Size160UrlLowered();
  }

  // camelize("I Love Ramen") == "iLoveRamen"

  lemma LoveRamenFirstWord()
    ensures CamelJoined("I Love Ramen", 6) == "ILove"
  {
    assert CamelJoined("I Love Ramen", 3) == "IL";
  }

  lemma LoveRamenReference()
    ensures |"I Love Ramen"| == 12 && CamelJoined("I Love Ramen", 12) == "ILoveRamen"
  {
    LoveRamenFirstWord();
    assert CamelJoined("I Love Ramen", 8) == "ILoveR";
  }

  lemma LoveRamenJoined()
    ensures DropSeparatorRuns("I Love Ramen") == "ILoveRamen"
  {
    DropSeparatorRunsMeaning("I Love Ramen");
    LoveRamenReference();
  }

  /** Without a `/`, only the first character can start a segment, so the second pass of camelize changes at most that one. */
  lemma LowersOnlyFirst(t: string)
    requires t != [] && forall k | 0 <= k < |t| :: t[k] != '/'
    ensures MapSegmentStarts(t, 0, IsAsciiUpper, ToLower) == [if IsAsciiUpper(t[0]) then ToLower(t[0]) else t[0]] + t[1..]
  {
    var r := MapSegmentStarts(t, 0, IsAsciiUpper, ToLower);
    var first := if IsAsciiUpper(t[0]) then ToLower(t[0]) else t[0];
    assert IsSegmentStart(t, 0) && r[0 - 0] == first;
    forall k | 1 <= k < |t| ensures r[k] == t[k] {
      assert !IsSegmentStart(t, k);
      assert r[k - 0] == t[k];
    }
    assert r == [first] + t[1..];
  }

  lemma LoveRamenHasNoSlash()
    ensures forall k | 0 <= k < |"ILoveRamen"| :: "ILoveRamen"[k] != '/'
    ensures [ToLower('I')] + "ILoveRamen"[1..] == "iLoveRamen"
  {
  }

  /** Separators go, the letter after each is upper-cased, and the capital that starts the word is lowered. */
  lemma CamelizeCapitalized()
    ensures Camelize("I Love Ramen") == "iLoveRamen"
  {
    LoveRamenJoined();
    LoveRamenHasNoSlash();
    LowersOnlyFirst("ILoveRamen");
  }

  // underscore("my favorite items") == "my_favorite_items"

  lemma MyReference()
    ensures UnderscoredPrefix("my favorite items", 3) == "my_"
  {
  }

  lemma MyFavoReference()
    ensures UnderscoredPrefix("my favorite items", 7) == "my_favo"
  {
    MyReference();
    assert UnderscoredPrefix("my favorite items", 5) == "my_fa";
  }

  lemma FavoriteReference()
    ensures UnderscoredPrefix("my favorite items", 12) == "my_favorite_"
  {
    MyFavoReference();
    assert UnderscoredPrefix("my favorite items", 9) == "my_favori";
  }

  lemma FavoriteItemsReference()
    ensures |"my favorite items"| == 17 && UnderscoredPrefix("my favorite items", 17) == "my_favorite_items"
  {
    FavoriteReference();
    assert UnderscoredPrefix("my favorite items", 14) == "my_favorite_it";
  }

  lemma FavoriteItemsUnderscored()
    ensures UnderscoreDashesAndSpaces("my favorite items") == "my_favorite_items"
  {
    UnderscoreDashesAndSpacesMeaning("my favorite items");
    FavoriteItemsReference();
  }

  lemma FavoriteItemsHasNoUpper()
    ensures forall k | 0 <= k < |"my favorite items"| :: !IsAsciiUpper("my favorite items"[k])
  {
  }

  lemma FavoriteItemsLowered()
    ensures LowerStr("my_favorite_items") == "my_favorite_items"
  {
  }

  /** Each space becomes an underscore in a string with nothing else to change. */
  lemma UnderscoreSpaced()
    ensures Underscore("my favorite items") == "my_favorite_items"
  {
    FavoriteItemsHasNoUpper();
    UpperRunsInsertLikeBoundaries("my favorite items");
    InsertFixedWithoutUpper("my favorite items");
    FavoriteItemsUnderscored();
    FavoriteItemsLowered();
  }

  lemma CapitalizeAccented()
    ensures Capitalize("šabc") == "Šabc"
  {
    var r := Capitalize("šabc");
    assert r[0] == ToUpper('š') == 'Š';
    assert forall k | 1 <= k < 4 :: r[k] == "šabc"[k];
  }
}
