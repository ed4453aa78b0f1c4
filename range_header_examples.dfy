/** The cases of the header parser's test suite, and a few edges of the
    parser's behaviour, each derived from the general lemmas. Every fact
    about a literal header is proved in a lemma of its own, so that the
    verifier never has to evaluate the parser on a literal. */
module RangeHeaderExamples {
  import opened Wrappers
  import opened JsText
  import opened RangeHeader

  // ---------------------------------------------------------------------
  // Headers the suite expects to parse
  // ---------------------------------------------------------------------

  lemma AcceptsOpenEnded()
    ensures ParseRange("bytes=0-") == Some(OffsetOnly(Some(0)))
  {
    ParseRangeOpenEnded(Some(0), "bytes=0-");
  }

  lemma AcceptsSuffix()
    ensures ParseRange("bytes=-100") == Some(Suffix(Some(100)))
  {
    ParseRangeSuffix(Some(100), "bytes=-100");
  }

  lemma AcceptsFirstHundred()
    ensures ParseRange("bytes=0-99") == Some(OffsetLength(0, 100))
  {
    ParseRangeDecimal(0, 99, "bytes=0-99");
  }

  lemma AcceptsHundredToTwoHundred()
    ensures ParseRange("bytes=100-200") == Some(OffsetLength(100, 101))
  {
    ParseRangeDecimal(100, 200, "bytes=100-200");
  }

  // ---------------------------------------------------------------------
  // Headers the suite expects to be refused
  // ---------------------------------------------------------------------

  lemma RejectsEmpty()
    ensures ParseRange("") == None
  {
  }

  lemma RejectsBareEquals()
    ensures ParseRange("=") == None
  {
  }

  lemma RejectsOtherUnit()
    ensures ParseRange("unknown=0-100") == None
  {
    OtherUnitAbsent();
  }

  lemma RejectsMissingUnit()
    ensures ParseRange("1-100") == None
  {
    NoUnitWithoutEquals("1-100");
  }

  lemma RejectsEmptySides()
    ensures ParseRange("bytes=-") == None
  {
    SpecOfPlainHeader("-");
    ParseRangeOfSpec("bytes=-", "", "");
  }

  lemma RejectsTwoDashes()
    ensures ParseRange("bytes=-1-1") == None
  {
    SpecText("bytes=-1-1", "-1-1");
    assert multiset("-1-1")['-'] == 2;
  }

  lemma RejectsInverted()
    ensures ParseRange("bytes=200-100") == None
  {
    ParseRangeDecimal(200, 100, "bytes=200-100");
  }

  lemma RejectsTextOffset()
    ensures ParseRange("bytes=x-100") == None
  {
    SpecText("bytes=x-100", "x-100");
    assert "x-100" == "x" + "-" + "100";
    ParseIntNeedsDigit("x");
    ParseRangeOfSpec("bytes=x-100", "x", "100");
  }

  lemma RejectsTextEnd()
    ensures ParseRange("bytes=100-x") == None
  {
    SpecText("bytes=100-x", "100-x");
    assert "100-x" == "100" + "-" + "x";
    ParseIntNeedsDigit("x");
    ParseRangeOfSpec("bytes=100-x", "100", "x");
  }

  lemma RejectsTextSides()
    ensures ParseRange("bytes=x-x") == None
  {
    SpecText("bytes=x-x", "x-x");
    assert "x-x" == "x" + "-" + "x";
    ParseIntNeedsDigit("x");
    ParseRangeOfSpec("bytes=x-x", "x", "x");
  }

  lemma RejectsMultipleRanges()
    ensures ParseRange("bytes=0-99,100-199") == None
  {
    MultipleRangesSpec();
    MultipleRangesComma();
  }

  // ---------------------------------------------------------------------
  // Edges the suite leaves open
  // ---------------------------------------------------------------------

  /** Text before the unit is ignored. */
  lemma AcceptsLeadingText()
    ensures ParseRange("xbytes=0-99") == Some(OffsetLength(0, 100))
  {
    AcceptsFirstHundred();
    assert "xbytes=0-99" == "x" + Unit + "0-99" && "bytes=0-99" == Unit + "0-99" by {
      LeadingTextLiterals();
    }
    SameAfterUnit("xbytes=0-99", "bytes=0-99", "x", "0-99");
  }

  /** The range-spec stops at a second `bytes=`, which leaves it empty. */
  lemma RejectsRepeatedUnit()
    ensures ParseRange("bytes=bytes=0-99") == None
  {
    RepeatedUnitSpec();
  }

  /** A suffix of zero bytes is accepted. */
  lemma AcceptsZeroSuffix()
    ensures ParseRange("bytes=-0") == Some(Suffix(Some(0)))
  {
    ParseRangeSuffix(Some(0), "bytes=-0");
  }

  /** An offset that is not a number is kept as NaN when no end is given. */
  lemma AcceptsNaNOffset()
    ensures ParseRange("bytes=NaN-") == Some(OffsetOnly(None))
  {
    ParseRangeOpenEnded(None, "bytes=NaN-");
  }

  /** Text after the digits of a side is ignored. */
  lemma AcceptsTrailingText()
    ensures ParseRange("bytes=5abc-7") == Some(OffsetLength(5, 3))
  {
    SpecText("bytes=5abc-7", "5abc-7");
    assert "5abc-7" == "5abc" + "-" + "7";
    TrailingTextNumbers();
    TrailingTextSides();
    RangeOfNumbers("bytes=5abc-7", "5abc", "7", 5, 7);
  }

  /** White space before a side and a plus sign are accepted. */
  lemma AcceptsWhiteSpaceAndPlus()
    ensures ParseRange("bytes= 5-+7") == Some(OffsetLength(5, 3))
  {
    SpecText("bytes= 5-+7", " 5-+7");
    assert " 5-+7" == " 5" + "-" + "+7";
    WhiteSpaceAndPlusNumbers();
    WhiteSpaceAndPlusSides();
    RangeOfNumbers("bytes= 5-+7", " 5", "+7", 5, 7);
  }

  // ---------------------------------------------------------------------
  // The formatter on the parser's results, for an object of 1000 bytes
  // ---------------------------------------------------------------------

  /** The intended value for `bytes=100-200` is `100-200/1000`. */
  lemma IntendedContentRangeOfHundredToTwoHundred()
    ensures IntendedContentRange(ParseRange("bytes=100-200"), 1000) == "100-200/1000"
  {
    AcceptsHundredToTwoHundred();
    IntendedHundredToTwoHundred(ParseRange("bytes=100-200"));
  }

  /** The value as written reads `100-199/1000` for the same header. */
  lemma ContentRangeOfHundredToTwoHundred()
    ensures MakeContentRange(ParseRange("bytes=100-200"), 1000) == "100-199/1000"
  {
    AcceptsHundredToTwoHundred();
    WrittenHundredToTwoHundred(ParseRange("bytes=100-200"));
  }

  /** A suffix request renders with an end of -1. */
  lemma ContentRangeOfSuffix()
    ensures MakeContentRange(ParseRange("bytes=-100"), 1000) == "0--1/1000"
  {
    AcceptsSuffix();
    WrittenSuffix(ParseRange("bytes=-100"));
  }

  // ---------------------------------------------------------------------
  // Helpers
  // ---------------------------------------------------------------------

  lemma SpecText(header: string, seg: string)
    requires header == Unit + seg
    requires '=' !in seg
    ensures RangeSpecText(header) == seg
  {
    SpecOfPlainHeader(seg);
  }

  lemma SameAfterUnit(h1: string, h2: string, pre: string, rest: string)
    requires h1 == pre + Unit + rest && h2 == Unit + rest
    requires '=' !in pre
    ensures ParseRange(h1) == ParseRange(h2)
  {
    NoUnitWithoutEquals(pre);
    LeadingTextIgnored(pre, rest);
  }

  /** `unknown=0-100` holds no `bytes=`: its only `=` is preceded by
      `unknown`. */
  lemma OtherUnitAbsent()
    ensures IndexOf("unknown=0-100", Unit).None?
  {
    var s := "unknown=0-100";
    forall j: nat
      ensures !OccursAt(s, Unit, j)
    {
      UnitEndsImplied(s, j);
      if j + 5 < |s| {
        OtherUnitEquals(j + 5);
      }
      NotUnitAtTwo();
    }
  }

  lemma UnitEndsImplied(s: string, j: nat)
    ensures OccursAt(s, Unit, j) ==> j + 5 < |s| && s[j + 5] == '='
  {
    if OccursAt(s, Unit, j) {
      UnitEndsWithEquals(s, j);
    }
  }

  lemma OtherUnitEquals(k: nat)
    requires k < |"unknown=0-100"|
    ensures "unknown=0-100"[k] == '=' <==> k == 7
  {
  }

  lemma NotUnitAtTwo()
    ensures !OccursAt("unknown=0-100", Unit, 2)
  {
    assert "unknown=0-100"[2..8][0] == 'k';
  }

  lemma MultipleRangesSpec()
    ensures RangeSpecText("bytes=0-99,100-199") == "0-99,100-199"
  {
    SpecText("bytes=0-99,100-199", "0-99,100-199");
  }

  lemma MultipleRangesComma()
    ensures ',' in "0-99,100-199"
  {
    assert "0-99,100-199"[4] == ',';
  }

  lemma LeadingTextLiterals()
    ensures "xbytes=0-99" == "x" + Unit + "0-99" && "bytes=0-99" == Unit + "0-99"
  {
  }

  lemma RepeatedUnitSpec()
    ensures RangeSpecText("bytes=bytes=0-99") == ""
  {
    RepeatedUnitLiterals();
    RangeSpecTextAfterUnit("", "bytes=0-99");
    FirstPieceOf("", "bytes=0-99");
  }

  lemma RepeatedUnitLiterals()
    ensures "bytes=bytes=0-99" == "" + Unit + "bytes=0-99"
    ensures "bytes=0-99" == "" + "bytes=0-99"
    ensures Unit <= "bytes=0-99"
  {
  }

  lemma RangeOfNumbers(header: string, first: string, last: string, a: int, b: int)
    requires RangeSpecText(header) == first + "-" + last
    requires '-' !in first && '-' !in last && ',' !in first && ',' !in last
    requires first != "" && last != ""
    requires ParseInt(first) == Some(a) && ParseInt(last) == Some(b) && a <= b
    ensures ParseRange(header) == Some(OffsetLength(a, b - a + 1))
  {
    ParseRangeOfNumbers(header, first, last, a, b);
    RangeFromNumbers(a, b);
  }

  lemma TrailingTextNumbers()
    ensures ParseInt("5abc") == Some(5) && ParseInt("7") == Some(7)
  {
    ParseDigitsOf("5", "abc");
    ParseIntUnsigned("5abc");
    ParseIntOfNatToString(7);
  }

  lemma WhiteSpaceAndPlusNumbers()
    ensures ParseInt(" 5") == Some(5) && ParseInt("+7") == Some(7)
  {
    SpaceFive();
    PlusSeven();
  }

  lemma SpaceFive()
    ensures ParseInt(" 5") == Some(5)
  {
    SpacedNat(" 5", " ", 5);
  }

  lemma SpacedNat(s: string, ws: string, n: nat)
    requires s == ws + NatToString(n)
    requires forall i :: 0 <= i < |ws| ==> IsJsWhiteSpace(ws[i])
    ensures ParseInt(s) == Some(n)
  {
    ParseIntSkipsWhiteSpace(ws, NatToString(n));
    ParseIntOfNatToString(n);
  }

  lemma PlusSeven()
    ensures ParseInt("+7") == Some(7)
  {
    ParseIntPlusNat(7);
    assert "+7" == "+" + NatToString(7);
  }

  lemma WhiteSpaceAndPlusSides()
    ensures '-' !in " 5" && '-' !in "+7" && ',' !in " 5" && ',' !in "+7"
  {
  }

  lemma TrailingTextSides()
    ensures '-' !in "5abc" && '-' !in "7" && ',' !in "5abc" && ',' !in "7"
  {
  }

  lemma IntendedHundredToTwoHundred(r: Option<ByteRange>)
    requires r == Some(OffsetLength(100, 101))
    ensures IntendedContentRange(r, 1000) == "100-200/1000"
  {
    IntendedContentRangeOf(100, 101, 1000);
    Renderings();
  }

  lemma WrittenHundredToTwoHundred(r: Option<ByteRange>)
    requires r == Some(OffsetLength(100, 101))
    ensures MakeContentRange(r, 1000) == "100-199/1000"
  {
    MakeContentRangeIgnoresLength(OffsetLength(100, 101), 100, 1000);
    Renderings();
  }

  lemma Renderings()
    ensures IntToString(100) == "100" && IntToString(199) == "199" && IntToString(200) == "200"
    ensures NatToString(1000) == "1000"
  {
    assert NatToString(100) == "100";
    assert NatToString(199) == "199";
    assert NatToString(200) == "200";
  }

  lemma WrittenSuffix(r: Option<ByteRange>)
    requires r == Some(Suffix(Some(100)))
    ensures MakeContentRange(r, 1000) == "0--1/1000"
  {
    MakeContentRangeOfSuffix(Some(100), 1000);
    Renderings();
  }
}
