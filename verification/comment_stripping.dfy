/** The two replacements configsFinder applies before anything else
    (src/reader/main.ts:20): every `"""…"""` block is removed, then every `#`
    through the next newline. Both are global, left-to-right, lazy and match
    across lines, so each removal starts at the leftmost place a match can
    start and ends at the first terminator after it. */
module CommentStripping {
  import opened Wrappers

  /** `a` can be obtained from `b` by deleting characters: what is kept stays in order. */
  predicate IsSubsequence(a: string, b: string)
    decreases |b|
  {
    if |b| == 0 then |a| == 0
    else (|a| > 0 && a[0] == b[0] && IsSubsequence(a[1..], b[1..])) || IsSubsequence(a, b[1..])
  }

  lemma {:induction false} SubsequenceOfSuffix(a: string, b: string, i: nat)
    requires i <= |b| && IsSubsequence(a, b[i..])
    ensures IsSubsequence(a, b)
  {
    if i > 0 {
      assert b[1..][i - 1..] == b[i..];
      SubsequenceOfSuffix(a, b[1..], i - 1);
    }
  }

  lemma KeepHead(a: string, b: string)
    requires |b| > 0 && IsSubsequence(a, b[1..])
    ensures IsSubsequence([b[0]] + a, b)
  {
  }

  /** Putting a character in front and concatenating associate. */
  lemma SeqCons(c: char, x: string, y: string)
    ensures [c] + (x + y) == ([c] + x) + y
  {
  }

  // ---------------------------------------------------------------------------
  // `"""…"""` blocks

  /** A `"""` starts at offset i. */
  predicate TripleQuoteAt(s: string, i: int)
  {
    0 <= i && i + 3 <= |s| && s[i] == '"' && s[i + 1] == '"' && s[i + 2] == '"'
  }

  /** The first `"""` at or after offset from. */
  function FindTripleQuote(s: string, from: nat): (r: Option<nat>)
    ensures r.Some? ==> from <= r.value && TripleQuoteAt(s, r.value)
    ensures r.Some? ==> forall k :: from <= k < r.value ==> !TripleQuoteAt(s, k)
    ensures r.None? ==> forall k :: from <= k ==> !TripleQuoteAt(s, k)
    decreases |s| - from
  {
    if from + 3 > |s| then None
    else if TripleQuoteAt(s, from) then Some(from)
    else FindTripleQuote(s, from + 1)
  }

  /** A block can be removed at offset 0: it opens there and a `"""` closes it later. */
  predicate BlockAtStart(s: string)
  {
    TripleQuoteAt(s, 0) && FindTripleQuote(s, 3).Some?
  }

  /** `text.replace(/""".*?"""/sg, '')`. */
  function StripBlockComments(s: string): (r: string)
    ensures |r| <= |s|
    ensures IsSubsequence(r, s)
    decreases |s|
  {
    if |s| == 0 then ""
    else if BlockAtStart(s) then
      var rest := s[FindTripleQuote(s, 3).value + 3..];
      SubsequenceOfSuffix(StripBlockComments(rest), s, FindTripleQuote(s, 3).value + 3);
      StripBlockComments(rest)
    else
      KeepHead(StripBlockComments(s[1..]), s);
      [s[0]] + StripBlockComments(s[1..])
  }

  /** No complete `"""…"""` block: no `"""` is followed by another one that
      does not overlap it. */
  ghost predicate NoBlock(t: string)
  {
    forall a, b :: a + 3 <= b && TripleQuoteAt(t, a) ==> !TripleQuoteAt(t, b)
  }

  lemma BlockAtStartFromPair(s: string, b: int)
    requires TripleQuoteAt(s, 0) && 3 <= b && TripleQuoteAt(s, b)
    ensures BlockAtStart(s)
  {
  }

  /** A kept `"` comes from a `"`. */
  lemma LeadingQuote(s: string)
    requires |StripBlockComments(s)| > 0 && StripBlockComments(s)[0] == '"'
    ensures |s| > 0 && s[0] == '"'
  {
  }

  /** A `"""` in the output at offset b comes from a `"""` in the input at b or later. */
  lemma {:induction false} TripleQuoteHasSource(s: string, b: int)
    requires TripleQuoteAt(StripBlockComments(s), b)
    ensures exists c :: b <= c && TripleQuoteAt(s, c)
    decreases |s|
  {
    var t := StripBlockComments(s);
    if BlockAtStart(s) {
      var e := FindTripleQuote(s, 3).value + 3;
      TripleQuoteHasSource(s[e..], b);
      var c :| b <= c && TripleQuoteAt(s[e..], c);
      assert TripleQuoteAt(s, e + c);
    } else {
      var t' := StripBlockComments(s[1..]);
      assert t == [s[0]] + t';
      if b > 0 {
        assert TripleQuoteAt(t', b - 1);
        TripleQuoteHasSource(s[1..], b - 1);
        var c :| b - 1 <= c && TripleQuoteAt(s[1..], c);
        assert TripleQuoteAt(s, c + 1);
      } else {
        ThreeKeptQuotes(s);
      }
    }
  }

  /** When the output starts with `"""` and the input does not start with a
      removable block, the input holds a `"""` near its start. */
  lemma ThreeKeptQuotes(s: string)
    requires !BlockAtStart(s) && TripleQuoteAt(StripBlockComments(s), 0)
    ensures TripleQuoteAt(s, 0) || TripleQuoteAt(s, 1) || TripleQuoteAt(s, 2)
  {
    var t' := StripBlockComments(s[1..]);
    assert |t'| >= 2 && t'[0] == '"' && t'[1] == '"';
    LeadingQuote(s[1..]);
    if !BlockAtStart(s[1..]) {
      var t'' := StripBlockComments(s[2..]);
      assert s[1..][1..] == s[2..];
      assert t' == [s[1]] + t'';
      LeadingQuote(s[2..]);
    }
  }

  /** Removing blocks leaves no complete block behind: a kept `"` is never
      followed directly by a removed block, since then the block would have
      started one character earlier. */
  lemma {:induction false} StripBlockCommentsLeavesNoBlock(s: string)
    ensures NoBlock(StripBlockComments(s))
    decreases |s|
  {
    var t := StripBlockComments(s);
    if |s| == 0 {
    } else if BlockAtStart(s) {
      StripBlockCommentsLeavesNoBlock(s[FindTripleQuote(s, 3).value + 3..]);
    } else {
      var t' := StripBlockComments(s[1..]);
      StripBlockCommentsLeavesNoBlock(s[1..]);
      assert t == [s[0]] + t';
      forall a, b | a + 3 <= b && TripleQuoteAt(t, a)
        ensures !TripleQuoteAt(t, b)
      {
        if a > 0 {
          assert TripleQuoteAt(t', a - 1);
          if TripleQuoteAt(t, b) {
            assert TripleQuoteAt(t', b - 1);
          }
        } else if TripleQuoteAt(t, b) {
          assert TripleQuoteAt(t', b - 1);
          TripleQuoteHasSource(s[1..], b - 1);
          var c :| b - 1 <= c && TripleQuoteAt(s[1..], c);
          assert TripleQuoteAt(s, c + 1);
          StartsWithTripleQuote(s);
          BlockAtStartFromPair(s, c + 1);
          assert false;
        }
      }
    }
  }

  /** The output starts with `"""` although no block is removable at offset 0:
      then the input itself starts with `"""`. */
  lemma StartsWithTripleQuote(s: string)
    requires |s| > 0 && !BlockAtStart(s) && TripleQuoteAt(StripBlockComments(s), 0)
    ensures TripleQuoteAt(s, 0)
  {
  }

  /** Text without a complete block is left as it is. */
  lemma {:induction false} StripBlockCommentsKeepsClean(s: string)
    requires NoBlock(s)
    ensures StripBlockComments(s) == s
    decreases |s|
  {
    if |s| > 0 {
      assert !BlockAtStart(s);
      assert NoBlock(s[1..]) by {
        forall a, b | a + 3 <= b && TripleQuoteAt(s[1..], a)
          ensures !TripleQuoteAt(s[1..], b)
        {
          assert TripleQuoteAt(s, a + 1);
          assert !TripleQuoteAt(s, b + 1);
        }
      }
      StripBlockCommentsKeepsClean(s[1..]);
    }
  }

  /** Text holding a complete block gets strictly shorter. */
  lemma {:induction false} StripBlockCommentsShortens(s: string)
    requires !NoBlock(s)
    ensures |StripBlockComments(s)| < |s|
    decreases |s|
  {
    var a, b :| a + 3 <= b && TripleQuoteAt(s, a) && TripleQuoteAt(s, b);
    if !BlockAtStart(s) {
      if a == 0 {
        BlockAtStartFromPair(s, b);
      }
      assert TripleQuoteAt(s[1..], a - 1) && TripleQuoteAt(s[1..], b - 1);
      StripBlockCommentsShortens(s[1..]);
    }
  }

  /** Block removal changes the text exactly when it holds a complete block,
      and applying it twice is the same as once. */
  lemma StripBlockCommentsFixpoint(s: string)
    ensures StripBlockComments(s) == s <==> NoBlock(s)
    ensures StripBlockComments(StripBlockComments(s)) == StripBlockComments(s)
  {
    if NoBlock(s) {
      StripBlockCommentsKeepsClean(s);
    } else {
      StripBlockCommentsShortens(s);
    }
    StripBlockCommentsLeavesNoBlock(s);
    StripBlockCommentsKeepsClean(StripBlockComments(s));
  }

  /** Text before the first `"` is kept as it is. */
  lemma StripBlockCommentsKeepsPlainPrefix(a: string, b: string)
    requires '"' !in a
    ensures StripBlockComments(a + b) == a + StripBlockComments(b)
  {
    assert forall k :: 0 <= k < |a| ==> a[k] != '"' by {
      forall k | 0 <= k < |a| ensures a[k] != '"' {
        assert a[k] in a;
      }
    }
    StripBlockCommentsKeepsPlainPrefixFrom(a, b, 0);
    assert a[0..] == a;
  }

  lemma {:induction false} StripBlockCommentsKeepsPlainPrefixFrom(a: string, b: string, i: nat)
    requires i <= |a|
    requires forall k :: 0 <= k < |a| ==> a[k] != '"'
    ensures StripBlockComments(a[i..] + b) == a[i..] + StripBlockComments(b)
    decreases |a| - i
  {
    if i == |a| {
      assert a[i..] + b == b;
    } else {
      var s := a[i..] + b;
      assert s[0] == a[i];
      assert s[1..] == a[i + 1..] + b;
      StripBlockCommentsKeepsHead(s);
      StripBlockCommentsKeepsPlainPrefixFrom(a, b, i + 1);
      SeqCons(a[i], a[i + 1..], StripBlockComments(b));
      assert [a[i]] + a[i + 1..] == a[i..];
    }
  }

  /** A first character that does not open a removable block is kept: any
      character other than `"`, a `"` not followed by two more, and a `"""`
      that no later `"""` closes. */
  lemma StripBlockCommentsKeepsHead(s: string)
    requires |s| > 0 && !BlockAtStart(s)
    ensures StripBlockComments(s) == [s[0]] + StripBlockComments(s[1..])
  {
  }

  /** A block at the start ends at the first `"""` after its opening one, and
      the whole of it is removed. */
  lemma StripBlockCommentsDropsLeadingBlock(x: string, b: string)
    requires FindTripleQuote(x + "\"\"\"", 0) == Some(|x|)
    ensures StripBlockComments("\"\"\"" + x + "\"\"\"" + b) == StripBlockComments(b)
  {
    var q := "\"\"\"";
    var xq := x + q;
    var s := q + xq + b;
    assert s == q + x + q + b;
    assert TripleQuoteAt(s, 0);
    forall k | 3 <= k <= 3 + |x|
      ensures TripleQuoteAt(s, k) <==> TripleQuoteAt(xq, k - 3)
    {
      assert s[k] == xq[k - 3] && s[k + 1] == xq[k - 2] && s[k + 2] == xq[k - 1];
    }
    assert TripleQuoteAt(xq, |x|);
    assert TripleQuoteAt(s, 3 + |x|);
    var e := FindTripleQuote(s, 3);
    assert e.Some?;
    assert e.value == 3 + |x|;
    assert s[3 + |x| + 3..] == b;
  }

  // ---------------------------------------------------------------------------
  // `#` line comments

  /** The first newline at or after offset from. */
  function FindNewline(s: string, from: nat): (r: Option<nat>)
    ensures r.Some? ==> from <= r.value < |s| && s[r.value] == '\n'
    ensures r.Some? ==> forall k :: from <= k < r.value ==> s[k] != '\n'
    ensures r.None? ==> forall k :: from <= k < |s| ==> s[k] != '\n'
    decreases |s| - from
  {
    if from >= |s| then None
    else if s[from] == '\n' then Some(from)
    else FindNewline(s, from + 1)
  }

  /** A comment can be removed at offset 0: a `#` with a newline after it. */
  predicate CommentAtStart(s: string)
  {
    |s| > 0 && s[0] == '#' && FindNewline(s, 1).Some?
  }

  /** `text.replace(/#.*?\n/sg, '')`. */
  function StripLineComments(s: string): (r: string)
    ensures |r| <= |s|
    ensures IsSubsequence(r, s)
    decreases |s|
  {
    if |s| == 0 then ""
    else if CommentAtStart(s) then
      var rest := s[FindNewline(s, 1).value + 1..];
      SubsequenceOfSuffix(StripLineComments(rest), s, FindNewline(s, 1).value + 1);
      StripLineComments(rest)
    else
      KeepHead(StripLineComments(s[1..]), s);
      [s[0]] + StripLineComments(s[1..])
  }

  /** No `#` has a newline anywhere after it. */
  ghost predicate NoLineComment(t: string)
  {
    forall i, j :: 0 <= i < j < |t| && t[i] == '#' ==> t[j] != '\n'
  }

  /** Text without a `#` before a newline is left as it is. */
  lemma {:induction false} StripLineCommentsKeepsClean(s: string)
    requires NoLineComment(s)
    ensures StripLineComments(s) == s
    decreases |s|
  {
    if |s| > 0 {
      assert !CommentAtStart(s);
      StripLineCommentsKeepsClean(s[1..]);
    }
  }

  /** After the removal no `#` is followed by a newline: a kept `#` has no
      newline after it in the input, so everything after it is kept unchanged. */
  lemma {:induction false} StripLineCommentsLeavesNone(s: string)
    ensures NoLineComment(StripLineComments(s))
    decreases |s|
  {
    if |s| == 0 {
    } else if CommentAtStart(s) {
      StripLineCommentsLeavesNone(s[FindNewline(s, 1).value + 1..]);
    } else {
      var t' := StripLineComments(s[1..]);
      StripLineCommentsLeavesNone(s[1..]);
      if s[0] == '#' {
        assert NoLineComment(s[1..]);
        StripLineCommentsKeepsClean(s[1..]);
        assert StripLineComments(s) == s;
      } else {
        assert StripLineComments(s) == [s[0]] + t';
      }
    }
  }

  /** Text holding a `#` before a newline gets strictly shorter. */
  lemma {:induction false} StripLineCommentsShortens(s: string)
    requires !NoLineComment(s)
    ensures |StripLineComments(s)| < |s|
    decreases |s|
  {
    var i, j :| 0 <= i < j < |s| && s[i] == '#' && s[j] == '\n';
    if !CommentAtStart(s) {
      assert i > 0;
      assert s[1..][i - 1] == '#' && s[1..][j - 1] == '\n';
      StripLineCommentsShortens(s[1..]);
    }
  }

  /** Comment removal changes the text exactly when it holds a `#` before a
      newline, and applying it twice is the same as once. */
  lemma {:induction false} StripLineCommentsFixpoint(s: string)
    ensures StripLineComments(s) == s <==> NoLineComment(s)
    ensures StripLineComments(StripLineComments(s)) == StripLineComments(s)
  {
    if NoLineComment(s) {
      StripLineCommentsKeepsClean(s);
    } else {
      StripLineCommentsShortens(s);
    }
    StripLineCommentsLeavesNone(s);
    StripLineCommentsKeepsClean(StripLineComments(s));
  }

  /** Text before the first `#` is kept as it is. */
  lemma StripLineCommentsKeepsPlainPrefix(a: string, b: string)
    requires '#' !in a
    ensures StripLineComments(a + b) == a + StripLineComments(b)
  {
    assert forall k :: 0 <= k < |a| ==> a[k] != '#' by {
      forall k | 0 <= k < |a| ensures a[k] != '#' {
        assert a[k] in a;
      }
    }
    StripLineCommentsKeepsPlainPrefixFrom(a, b, 0);
    assert a[0..] == a;
  }

  lemma {:induction false} StripLineCommentsKeepsPlainPrefixFrom(a: string, b: string, i: nat)
    requires i <= |a|
    requires forall k :: 0 <= k < |a| ==> a[k] != '#'
    ensures StripLineComments(a[i..] + b) == a[i..] + StripLineComments(b)
    decreases |a| - i
  {
    if i == |a| {
      assert a[i..] + b == b;
    } else {
      var s := a[i..] + b;
      assert s[0] == a[i];
      assert s[1..] == a[i + 1..] + b;
      StripLineCommentsKeepsHead(s);
      StripLineCommentsKeepsPlainPrefixFrom(a, b, i + 1);
      SeqCons(a[i], a[i + 1..], StripLineComments(b));
      assert [a[i]] + a[i + 1..] == a[i..];
    }
  }

  /** A first character that does not open a removable comment is kept: any
      character other than `#`, and a `#` with no newline after it. */
  lemma StripLineCommentsKeepsHead(s: string)
    requires |s| > 0 && !CommentAtStart(s)
    ensures StripLineComments(s) == [s[0]] + StripLineComments(s[1..])
  {
  }

  /** A comment at the start runs through the first newline after its `#`,
      and the whole of it, newline included, is removed. */
  lemma StripLineCommentsDropsLeadingComment(x: string, b: string)
    requires '\n' !in x
    ensures StripLineComments("#" + x + "\n" + b) == StripLineComments(b)
  {
    var s := "#" + x + "\n" + b;
    assert s[1 + |x|] == '\n';
    forall k | 1 <= k < 1 + |x| ensures s[k] != '\n' {
      assert s[k] == x[k - 1];
    }
    assert FindNewline(s, 1) == Some(1 + |x|);
    assert s[1 + |x| + 1..] == b;
  }

  /** A `#` with no newline after it is not a comment the pattern removes: a
      tail without newlines is kept, and what comes before is stripped as if
      the tail were not there. */
  lemma {:induction false} StripLineCommentsKeepsUnterminatedTail(a: string, t: string)
    requires '\n' !in t
    ensures StripLineComments(a + t) == StripLineComments(a) + t
    decreases |a|
  {
    var s := a + t;
    if |a| == 0 {
      assert s == t;
      assert NoLineComment(t);
      StripLineCommentsKeepsClean(t);
    } else if CommentAtStart(a) {
      var n := FindNewline(a, 1).value;
      assert s[n] == '\n';
      forall k | 1 <= k < n ensures s[k] != '\n' {
        assert s[k] == a[k];
      }
      assert FindNewline(s, 1) == Some(n);
      assert s[n + 1..] == a[n + 1..] + t;
      StripLineCommentsKeepsUnterminatedTail(a[n + 1..], t);
    } else {
      assert s[0] == a[0];
      if a[0] == '#' {
        forall k | 1 <= k < |s| ensures s[k] != '\n' {
          if k < |a| {
            assert s[k] == a[k];
          } else {
            assert s[k] == t[k - |a|];
          }
        }
        assert FindNewline(s, 1).None?;
      }
      assert !CommentAtStart(s);
      assert s[1..] == a[1..] + t;
      StripLineCommentsKeepsUnterminatedTail(a[1..], t);
    }
  }

  /** A `#` with no newline after it is kept together with everything after it. */
  lemma UnterminatedCommentKept(s: string, i: nat)
    requires i < |s| && s[i] == '#' && '\n' !in s[i..]
    ensures StripLineComments(s) == StripLineComments(s[..i]) + s[i..]
  {
    assert s == s[..i] + s[i..];
    StripLineCommentsKeepsUnterminatedTail(s[..i], s[i..]);
  }

  /** Text holding neither `"` nor `#` passes the cleaning unchanged, ahead of
      whatever follows it. */
  lemma CleanTextKeepsPlainPrefix(a: string, b: string)
    requires '"' !in a && '#' !in a
    ensures CleanText(a + b) == a + CleanText(b)
  {
    StripBlockCommentsKeepsPlainPrefix(a, b);
    StripLineCommentsKeepsPlainPrefix(a, StripBlockComments(b));
  }

  /** Text holding neither `"` nor `#` goes through both removals unchanged. */
  lemma PlainTextUntouched(text: string)
    ensures '"' !in text && '#' !in text ==>
              StripLineComments(StripBlockComments(text)) == text
  {
    if '"' !in text && '#' !in text {
      assert text + "" == text;
      StripBlockCommentsKeepsPlainPrefix(text, "");
      StripLineCommentsKeepsPlainPrefix(text, "");
    }
  }

  /** The text configsFinder works on: blocks removed, then line comments. */
  function CleanText(text: string): (r: string)
    ensures |r| <= |text|
    ensures IsSubsequence(r, text)
    ensures NoLineComment(r)
    ensures '"' !in text && '#' !in text ==> r == text
  {
    PlainTextUntouched(text);
    var noBlocks := StripBlockComments(text);
    StripLineCommentsLeavesNone(noBlocks);
    SubsequenceTransitive(StripLineComments(noBlocks), noBlocks, text);
    StripLineComments(noBlocks)
  }

  lemma {:induction false} SubsequenceTransitive(a: string, b: string, c: string)
    requires IsSubsequence(a, b) && IsSubsequence(b, c)
    ensures IsSubsequence(a, c)
    decreases |c|
  {
    if |c| == 0 {
    } else if |b| > 0 && b[0] == c[0] && IsSubsequence(b[1..], c[1..]) {
      if |a| > 0 && a[0] == b[0] && IsSubsequence(a[1..], b[1..]) {
        SubsequenceTransitive(a[1..], b[1..], c[1..]);
      } else {
        SubsequenceTransitive(a, b[1..], c[1..]);
      }
    } else {
      SubsequenceTransitive(a, b, c[1..]);
    }
  }
}
