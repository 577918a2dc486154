/** Worked instances of the scanner on the braceReader samples of the test
    suite (src/test/suite/main.test.ts:118-149), derived step by step from the
    loop model. */
module ReaderExamples {
  import opened Wrappers
  import opened Utilities
  import opened ScannerProperties

  /** The sample text of the curly-bracket tests. */
  const Sample: string := "Look at them {2}{3}"

  /** The sample text of the round-bracket tests, written in the pieces its
      two groups cut it into. */
  const RoundSample: string := "my name is Jane " + "(the King)" + " Doe.\n I am twenty" + "(20)" + " years old"

  /** The sample text of the angle-bracket tests, written in the pieces its
      two groups cut it into. */
  const AngleSample: string := "this is a " + "<strong>" + "Wild" + "</strong>" + " tag"

  /** A text whose only glyphs of the pair are an opener at a, a closer at
      b, an opener at c and a closer at d, in that order, scans to the two
      groups a-b and c-d. */
  lemma TwoGroupScan(t: string, p: Pair, a: nat, b: nat, c: nat, d: nat)
    requires p.open != p.close
    requires a < b < c < d < |t|
    requires t[a] == p.open && t[b] == p.close && t[c] == p.open && t[d] == p.close
    requires forall k :: 0 <= k < |t| && k != a && k != b && k != c && k != d ==>
               t[k] != p.open && t[k] != p.close
    ensures Scan(t, p, |t|) == Success(ScanState(0, d + 1, [Span(a, b), Span(c, d)]))
  {
    ScanWithoutGlyphs(t, p, a);
    ScanUnfold(t, p, a, ScanState(0, 0, []));
    var sa := ScanState(1, a, []);
    ScanSkip(t, p, a + 1, b, sa);
    ScanUnfold(t, p, b, sa);
    var sb := ScanState(0, b + 1, [Span(a, b)]);
    assert [] + [Span(a, b)] == sb.groups;
    assert Scan(t, p, b + 1) == Success(sb);
    ScanSkip(t, p, b + 1, c, sb);
    ScanUnfold(t, p, c, sb);
    var sc := ScanState(1, c, [Span(a, b)]);
    ScanSkip(t, p, c + 1, d, sc);
    ScanUnfold(t, p, d, sc);
    var sd := ScanState(0, d + 1, [Span(a, b), Span(c, d)]);
    assert [Span(a, b)] + [Span(c, d)] == sd.groups;
    assert Scan(t, p, d + 1) == Success(sd);
    ScanSkip(t, p, d + 1, |t|, sd);
  }

  /** The scan of the sample finds the groups at offsets 13-15 and 16-18. */
  lemma CurlySampleSpans()
    ensures GroupSpans(Sample, CurlyBracketOpen) == Success([Span(13, 15), Span(16, 18)])
  {
    var p := PairOf(CurlyBracketOpen);
    assert p == Pair('{', '}');
    TwoGroupScan(Sample, p, 13, 15, 16, 18);
  }

  /** "Look at them {2}{3}" read for curly groups, kept whole and stripped. */
  lemma CurlyGroupsOfTestSample()
    ensures BraceReader(Sample, CurlyBracketOpen, false) == Success(["{2}", "{3}"])
    ensures BraceReader(Sample, CurlyBracketOpen, true) == Success(["2", "3"])
  {
    CurlySampleSpans();
    ReaderOfTwoGroups(Sample, CurlyBracketOpen, false, Span(13, 15), Span(16, 18));
    ReaderOfTwoGroups(Sample, CurlyBracketOpen, true, Span(13, 15), Span(16, 18));
    SampleCuts();
  }

  /** The two groups of the sample, cut with and without their brackets. */
  lemma SampleCuts()
    ensures Cut(Sample, Span(13, 15), false) == "{2}" && Cut(Sample, Span(16, 18), false) == "{3}"
    ensures Cut(Sample, Span(13, 15), true) == "2" && Cut(Sample, Span(16, 18), true) == "3"
  {
  }

  /** braceReader's result when the scan finds exactly two groups. */
  lemma ReaderOfTwoGroups(text: string, openingBrace: Brace, removeBrace: bool, s0: Span, s1: Span)
    requires GroupSpans(text, openingBrace) == Success([s0, s1])
    ensures 0 <= s0.lo < s0.hi < |text| && 0 <= s1.lo < s1.hi < |text|
    ensures BraceReader(text, openingBrace, removeBrace)
         == Success([Cut(text, s0, removeBrace), Cut(text, s1, removeBrace)])
  {
    ReaderCuts(text, openingBrace, removeBrace);
    var spans := GroupSpans(text, openingBrace).value;
    assert spans[0] == s0 && spans[1] == s1;
    var r := BraceReader(text, openingBrace, removeBrace).value;
    assert |r| == 2;
    assert r[0] == Cut(text, s0, removeBrace);
    assert r[1] == Cut(text, s1, removeBrace);
    assert r == [Cut(text, s0, removeBrace), Cut(text, s1, removeBrace)];
  }

  /** Neither glyph of the pair occurs in the string. */
  predicate Plain(x: string, p: Pair)
  {
    p.open !in x && p.close !in x
  }

  /** A text made of plain pieces and two bracketed groups scans to those
      two groups, and cutting them gives back the groups and their insides. */
  lemma TwoGroupText(x0: string, g1: string, x1: string, g2: string, x2: string, m1: string, m2: string, p: Pair)
    requires p.open != p.close
    requires g1 == [p.open] + m1 + [p.close] && g2 == [p.open] + m2 + [p.close]
    requires Plain(x0, p) && Plain(m1, p) && Plain(x1, p) && Plain(m2, p) && Plain(x2, p)
    ensures var t := x0 + g1 + x1 + g2 + x2;
            var a := |x0|;
            var b := a + |m1| + 1;
            var c := b + 1 + |x1|;
            var d := c + |m2| + 1;
            && Scan(t, p, |t|) == Success(ScanState(0, d + 1, [Span(a, b), Span(c, d)]))
            && t[a .. b + 1] == g1 && t[a + 1 .. b] == m1
            && t[c .. d + 1] == g2 && t[c + 1 .. d] == m2
  {
    var t := x0 + g1 + x1 + g2 + x2;
    var a := |x0|;
    var b := a + |m1| + 1;
    var c := b + 1 + |x1|;
    var d := c + |m2| + 1;
    forall k | 0 <= k < |t| && k != a && k != b && k != c && k != d
      ensures t[k] != p.open && t[k] != p.close
    {
      if k < a {
        assert t[k] == x0[k];
      } else if k < b {
        assert t[k] == m1[k - a - 1];
      } else if k < c {
        assert t[k] == x1[k - b - 1];
      } else if k < d {
        assert t[k] == m2[k - c - 1];
      } else {
        assert t[k] == x2[k - d - 1];
      }
    }
    TwoGroupScan(t, p, a, b, c, d);
    assert t[a .. b + 1] == g1;
    assert t[a + 1 .. b] == m1;
    assert t[c .. d + 1] == g2;
    assert t[c + 1 .. d] == m2;
  }

  /** The round sample's plain pieces hold no `(` or `)`. */
  lemma RoundSampleOuterPlain()
    ensures Plain("my name is Jane ", Pair('(', ')'))
    ensures Plain(" Doe.\n I am twenty", Pair('(', ')'))
    ensures Plain(" years old", Pair('(', ')'))
  {
  }

  /** The round sample's groups are their insides between `(` and `)`. */
  lemma RoundSampleGroupsShape()
    ensures "(the King)" == ['('] + "the King" + [')'] && Plain("the King", Pair('(', ')'))
    ensures "(20)" == ['('] + "20" + [')'] && Plain("20", Pair('(', ')'))
  {
  }

  /** "my name is Jane (the King) Doe.\n I am twenty(20) years old" read for
      round groups, kept whole and stripped: the newline is inert. */
  lemma RoundGroupsOfTestSample()
    ensures BraceReader(RoundSample, RoundBracketOpen, false) == Success(["(the King)", "(20)"])
    ensures BraceReader(RoundSample, RoundBracketOpen, true) == Success(["the King", "20"])
  {
    assert PairOf(RoundBracketOpen) == Pair('(', ')');
    RoundSampleOuterPlain();
    RoundSampleGroupsShape();
    TwoGroupText("my name is Jane ", "(the King)", " Doe.\n I am twenty", "(20)", " years old", "the King", "20", Pair('(', ')'));
    ReaderOfTwoGroups(RoundSample, RoundBracketOpen, false, Span(16, 25), Span(44, 47));
    ReaderOfTwoGroups(RoundSample, RoundBracketOpen, true, Span(16, 25), Span(44, 47));
  }

  /** The angle sample's plain pieces hold no `<` or `>`. */
  lemma AngleSampleOuterPlain()
    ensures Plain("this is a ", Pair('<', '>'))
    ensures Plain("Wild", Pair('<', '>'))
    ensures Plain(" tag", Pair('<', '>'))
  {
  }

  /** The angle sample's groups are their insides between `<` and `>`. */
  lemma AngleSampleGroupsShape()
    ensures "<strong>" == ['<'] + "strong" + ['>'] && Plain("strong", Pair('<', '>'))
    ensures "</strong>" == ['<'] + "/strong" + ['>'] && Plain("/strong", Pair('<', '>'))
  {
  }

  /** "this is a <strong>Wild</strong> tag" read for angle groups: the `/` of
      the closing tag stays inside the second group. */
  lemma AngleGroupsOfTestSample()
    ensures BraceReader(AngleSample, AngleBracketOpen, false) == Success(["<strong>", "</strong>"])
    ensures BraceReader(AngleSample, AngleBracketOpen, true) == Success(["strong", "/strong"])
  {
    assert PairOf(AngleBracketOpen) == Pair('<', '>');
    AngleSampleOuterPlain();
    AngleSampleGroupsShape();
    TwoGroupText("this is a ", "<strong>", "Wild", "</strong>", " tag", "strong", "/strong", Pair('<', '>'));
    ReaderOfTwoGroups(AngleSample, AngleBracketOpen, false, Span(10, 17), Span(22, 30));
    ReaderOfTwoGroups(AngleSample, AngleBracketOpen, true, Span(10, 17), Span(22, 30));
  }

  /** A closing enum value is refused whatever the text (main.test.ts:147-149). */
  lemma ClosingEnumValueRefused()
    ensures BraceReader("}", CurlyBracketClose, false) == Failure(InvalidOpeningBrace)
    ensures BraceReader("(sample)", CurlyBracketClose, false) == Failure(InvalidOpeningBrace)
  {
  }
}
