/** What braceReader's results look like as strings: whole groups are
    balanced substrings of the input, stripped groups are those without their
    ends, other characters never matter and an unclosed opener is dropped. */
module ScannerProperties {
  import opened Wrappers
  import opened Utilities

  /** A balanced group of the pair: it starts with the opener, ends with the
      closer, has as many of each, and every proper non-empty prefix has more
      openers than closers (so it does not split into smaller groups). */
  ghost predicate Balanced(g: string, p: Pair)
  {
    && |g| >= 2
    && g[0] == p.open && g[|g| - 1] == p.close
    && Depth(g, p, |g|) == 0
    && forall m :: 0 < m < |g| ==> Depth(g, p, m) > 0
  }

  /** The depth inside a slice is the depth of the whole text relative to the
      slice's start. */
  lemma {:induction false} DepthOfSlice(text: string, p: Pair, lo: nat, hi: nat, m: nat)
    requires lo <= hi <= |text| && m <= hi - lo
    ensures Depth(text[lo..hi], p, m) == Depth(text, p, lo + m) - Depth(text, p, lo)
  {
    if m > 0 {
      DepthOfSlice(text, p, lo, hi, m - 1);
      assert text[lo..hi][m - 1] == text[lo + m - 1];
    }
  }

  /** An outermost group of the text, cut out with its brackets, is balanced. */
  lemma TopGroupIsBalanced(text: string, p: Pair, s: Span)
    requires TopGroup(text, p, s)
    ensures Balanced(text[s.lo .. s.hi + 1], p)
  {
    var g := text[s.lo .. s.hi + 1];
    DepthOfSlice(text, p, s.lo, s.hi + 1, |g|);
    forall m | 0 < m < |g|
      ensures Depth(g, p, m) > 0
    {
      DepthOfSlice(text, p, s.lo, s.hi + 1, m);
    }
  }

  /** With removeBrace unset, braceReader returns, in order, the contiguous
      substrings of the text at its non-overlapping outermost groups, and each
      of them is balanced in the chosen pair. */
  lemma WholeGroupsAreBalancedSubstrings(text: string, openingBrace: Brace)
    requires openingBrace % 2 == 0
    ensures BraceReader(text, openingBrace, false).Success? <==> GroupSpans(text, openingBrace).Success?
    ensures BraceReader(text, openingBrace, false).Success? ==>
              var groups := BraceReader(text, openingBrace, false).value;
              var spans := GroupSpans(text, openingBrace).value;
              && |groups| == |spans|
              && Ordered(spans)
              && forall j :: 0 <= j < |groups| ==>
                   && TopGroup(text, PairOf(openingBrace), spans[j])
                   && groups[j] == text[spans[j].lo .. spans[j].hi + 1]
                   && Balanced(groups[j], PairOf(openingBrace))
  {
    GroupSpansCharacterised(text, openingBrace);
    if GroupSpans(text, openingBrace).Success? {
      var spans := GroupSpans(text, openingBrace).value;
      forall j | 0 <= j < |spans|
        ensures Balanced(text[spans[j].lo .. spans[j].hi + 1], PairOf(openingBrace))
      {
        TopGroupIsBalanced(text, PairOf(openingBrace), spans[j]);
      }
    }
  }

  /** Stripping the brackets changes neither whether braceReader throws nor how
      many groups it returns: each stripped group is the whole group without
      its first and last character. */
  lemma StrippedGroupsAreWholeGroupsTrimmed(text: string, openingBrace: Brace)
    ensures BraceReader(text, openingBrace, true).Success? <==> BraceReader(text, openingBrace, false).Success?
    ensures BraceReader(text, openingBrace, true).Success? ==>
              var stripped := BraceReader(text, openingBrace, true).value;
              var whole := BraceReader(text, openingBrace, false).value;
              && |stripped| == |whole|
              && forall j :: 0 <= j < |whole| ==>
                   |whole[j]| >= 2 && stripped[j] == whole[j][1 .. |whole[j]| - 1]
  {
    if GroupSpans(text, openingBrace).Success? {
      ReaderCuts(text, openingBrace, false);
      ReaderCuts(text, openingBrace, true);
      var spans := GroupSpans(text, openingBrace).value;
      var whole := BraceReader(text, openingBrace, false).value;
      var stripped := BraceReader(text, openingBrace, true).value;
      forall j | 0 <= j < |whole|
        ensures |whole[j]| >= 2
        ensures stripped[j] == whole[j][1 .. |whole[j]| - 1]
      {
        var s := spans[j];
        assert whole[j] == text[s.lo .. s.hi + 1];
        assert stripped[j] == text[s.lo + 1 .. s.hi];
        InnerOfSlice(text, s.lo, s.hi);
      }
    }
  }

  /** The inside of a cut-out group is the text strictly between its ends. */
  lemma InnerOfSlice(text: string, lo: nat, hi: nat)
    requires lo < hi < |text|
    ensures text[lo .. hi + 1][1 .. hi - lo] == text[lo + 1 .. hi]
  {
    var w := text[lo .. hi + 1];
    var inner := w[1 .. hi - lo];
    var between := text[lo + 1 .. hi];
    forall k | 0 <= k < |inner|
      ensures inner[k] == between[k]
    {
      assert inner[k] == w[k + 1];
    }
  }

  /** The two texts have the chosen pair's glyphs at the same offsets. */
  ghost predicate SameGlyphs(t1: string, t2: string, p: Pair)
  {
    && |t1| == |t2|
    && forall k :: 0 <= k < |t1| ==>
         (t1[k] == p.open <==> t2[k] == p.open) && (t1[k] == p.close <==> t2[k] == p.close)
  }

  lemma {:induction false} ScanSeesOnlyGlyphs(t1: string, t2: string, p: Pair, n: nat)
    requires SameGlyphs(t1, t2, p) && n <= |t1|
    ensures Scan(t1, p, n) == Scan(t2, p, n)
  {
    if n > 0 {
      ScanSeesOnlyGlyphs(t1, t2, p, n - 1);
    }
  }

  /** Characters other than the chosen pair, other bracket kinds included,
      have no effect: texts with the pair's glyphs at the same offsets give
      groups at the same offsets, or both throw. */
  lemma OtherCharactersAreInert(t1: string, t2: string, openingBrace: Brace)
    requires openingBrace % 2 == 0
    requires SameGlyphs(t1, t2, PairOf(openingBrace))
    ensures GroupSpans(t1, openingBrace) == GroupSpans(t2, openingBrace)
    ensures BraceReader(t1, openingBrace, false).Success? <==> BraceReader(t2, openingBrace, false).Success?
  {
    ScanSeesOnlyGlyphs(t1, t2, PairOf(openingBrace), |t1|);
  }

  /** Neither glyph of the pair occurs in the first n characters. */
  ghost predicate NoGlyphs(text: string, p: Pair, n: nat)
    requires n <= |text|
  {
    forall k :: 0 <= k < n ==> text[k] != p.open && text[k] != p.close
  }

  lemma {:induction false} ScanWithoutGlyphs(text: string, p: Pair, n: nat)
    requires n <= |text| && NoGlyphs(text, p, n)
    ensures Scan(text, p, n) == Success(ScanState(0, 0, []))
  {
    if n > 0 {
      ScanWithoutGlyphs(text, p, n - 1);
    }
  }

  /** A run without the pair's glyphs leaves the loop state as it was. */
  lemma {:induction false} ScanSkip(text: string, p: Pair, from: nat, n: nat, st: ScanState)
    requires from <= n <= |text|
    requires forall k :: from <= k < n ==> text[k] != p.open && text[k] != p.close
    requires Scan(text, p, from) == Success(st)
    ensures Scan(text, p, n) == Success(st)
    decreases n - from
  {
    if n > from {
      ScanSkip(text, p, from, n - 1, st);
    }
  }

  /** A text without the chosen pair's glyphs yields no groups. */
  lemma NoGlyphsNoGroups(text: string, openingBrace: Brace, removeBrace: bool)
    requires openingBrace % 2 == 0
    requires NoGlyphs(text, PairOf(openingBrace), |text|)
    ensures BraceReader(text, openingBrace, removeBrace) == Success([])
  {
    ScanWithoutGlyphs(text, PairOf(openingBrace), |text|);
    assert GroupSpans(text, openingBrace) == Success([]);
    assert |BraceReader(text, openingBrace, removeBrace).value| == 0;
  }

  /** The scan of a prefix does not look past it. */
  lemma {:induction false} ScanOfPrefix(t: string, u: string, p: Pair, n: nat)
    requires n <= |t|
    ensures Scan(t + u, p, n) == Scan(t, p, n)
  {
    if n > 0 {
      ScanOfPrefix(t, u, p, n - 1);
      assert (t + u)[n - 1] == t[n - 1];
    }
  }

  /** After an opener at depth 0 or more, a suffix without closers keeps the
      depth positive and adds no group. */
  lemma {:induction false} ScanOpenTail(t: string, p: Pair, from: nat, n: nat)
    requires p.open != p.close
    requires from < n <= |t| && t[from] == p.open
    requires forall k :: from < k < |t| ==> t[k] != p.close
    requires Scan(t, p, from).Success? && Scan(t, p, from).value.depth >= 0
    ensures Scan(t, p, n).Success?
    ensures Scan(t, p, n).value.depth > 0
    ensures Scan(t, p, n).value.groups == Scan(t, p, from).value.groups
  {
    if n > from + 1 {
      ScanOpenTail(t, p, from, n - 1);
    }
  }

  lemma {:induction false} ScanFailureSticks(t: string, p: Pair, from: nat, n: nat)
    requires from <= n <= |t|
    requires Scan(t, p, from).Failure?
    ensures Scan(t, p, n) == Scan(t, p, from)
  {
    if n > from {
      ScanFailureSticks(t, p, from, n - 1);
    }
  }

  /** An opener that is never closed neither throws nor adds a group: the text
      reads as if the opener and everything after it were cut off. */
  lemma UnclosedOpenerIsDropped(t: string, u: string, openingBrace: Brace, removeBrace: bool)
    requires openingBrace % 2 == 0
    requires forall k :: 0 <= k < |u| ==> u[k] != PairOf(openingBrace).close
    ensures BraceReader(t + [PairOf(openingBrace).open] + u, openingBrace, removeBrace)
         == BraceReader(t, openingBrace, removeBrace)
  {
    var p := PairOf(openingBrace);
    var whole := t + [p.open] + u;
    assert whole == t + ([p.open] + u);
    ScanOfPrefix(t, [p.open] + u, p, |t|);
    ScanInvariant(t, p, |t|);
    if Scan(t, p, |t|).Success? {
      forall k | |t| < k < |whole|
        ensures whole[k] != p.close
      {
        assert whole[k] == u[k - |t| - 1];
      }
      ScanOpenTail(whole, p, |t|, |whole|);
      var spans := Scan(t, p, |t|).value.groups;
      assert GroupSpans(whole, openingBrace) == Success(spans);
      assert GroupSpans(t, openingBrace) == Success(spans);
      var r1 := BraceReader(whole, openingBrace, removeBrace).value;
      var r2 := BraceReader(t, openingBrace, removeBrace).value;
      assert |r1| == |r2| == |spans|;
      forall j | 0 <= j < |spans|
        ensures r1[j] == r2[j]
      {
        assert TopGroup(t, p, spans[j]);
        assert Cut(whole, spans[j], removeBrace) == Cut(t, spans[j], removeBrace);
      }
      assert r1 == r2;
      assert BraceReader(whole, openingBrace, removeBrace) == Success(r1);
      assert BraceReader(t, openingBrace, removeBrace) == Success(r2);
    } else {
      ScanFailureSticks(whole, p, |t|, |whole|);
    }
  }
}
