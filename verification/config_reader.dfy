/** ConfigReader.configsFinder of src/reader/main.ts: from the text of a
    routes file, the app name (or a key built from the file's path) and the
    round-bracket groups found inside its square-bracket groups. Nothing is
    caught, so a scanner error is the result of the whole call. */
module ConfigReader {
  import opened Wrappers
  import opened Utilities
  import opened ScannerProperties
  import opened CommentStripping
  import opened AppName

  /** The prefix of the key used when the file declares no usable app name. */
  const FilePathPrefix: string := "READER_FILE_PATH_"

  /** u occurs in t starting at offset i. */
  ghost predicate SubstringAt(u: string, t: string, i: int)
  {
    0 <= i && i + |u| <= |t| && t[i .. i + |u|] == u
  }

  ghost predicate IsSubstring(u: string, t: string)
  {
    exists i :: SubstringAt(u, t, i)
  }

  lemma SubstringOfSlice(u: string, t: string, lo: nat, hi: nat)
    requires lo <= hi <= |t| && IsSubstring(u, t[lo..hi])
    ensures IsSubstring(u, t)
  {
    var i :| SubstringAt(u, t[lo..hi], i);
    assert t[lo + i .. lo + i + |u|] == u by {
      forall k | 0 <= k < |u| ensures t[lo + i + k] == u[k] {
        assert u[k] == t[lo..hi][i .. i + |u|][k] == t[lo..hi][i + k];
      }
    }
    assert SubstringAt(u, t, lo + i);
  }

  /** The key configsFinder uses: the captured app name of the first match of
      the pattern when that capture is non-empty, else the path-based key. */
  function AppNameKey(formatted: string, filePath: string): (key: string)
    ensures MatchAppName(formatted).Some? && Capture(formatted, MatchAppName(formatted).value) != "" ==>
              key == Capture(formatted, MatchAppName(formatted).value)
    ensures MatchAppName(formatted).None? || Capture(formatted, MatchAppName(formatted).value) == "" ==>
              key == FilePathPrefix + filePath
  {
    GetGroupMatch(AppNameMatchArray(formatted), GroupName, FilePathPrefix + filePath)
  }

  /** A file that never mentions `app_name` is filed under its path. */
  lemma NoAppNameMeansPathKey(formatted: string, filePath: string)
    requires forall p :: !KeyAt(formatted, p)
    ensures AppNameKey(formatted, filePath) == FilePathPrefix + filePath
  {
    if MatchAppName(formatted).Some? {
      assert KeyAt(formatted, MatchAppName(formatted).value.start);
    }
  }

  /** The pair `(` `)`. */
  const Round: Pair := PairOf(RoundBracketOpen)

  /** The pair `[` `]`. */
  const Square: Pair := PairOf(SquareBracketOpen)

  /** `braceReader(pattern, ROUND_BRACKET_OPEN)` for a pattern it does not throw on. */
  function RoundGroupsIn(pattern: string): seq<string>
  {
    match BraceReader(pattern, RoundBracketOpen, false)
    case Success(groups) => groups
    case Failure(_) => []
  }

  /** `Array.prototype.flat()` on an array of arrays: the inner arrays one after another. */
  function Flatten(xss: seq<seq<string>>): seq<string>
  {
    if |xss| == 0 then [] else xss[0] + Flatten(xss[1..])
  }

  /** `patterns.map((pattern) => braceReader(pattern, ROUND_BRACKET_OPEN))`. */
  function EachRound(patterns: seq<string>): seq<seq<string>>
  {
    seq(|patterns|, j requires 0 <= j < |patterns| => RoundGroupsIn(patterns[j]))
  }

  /** `patterns.map((pattern) => braceReader(pattern, ROUND_BRACKET_OPEN)).flat()`:
      throws when some pattern holds a stray `)`, and otherwise is the round
      groups of each pattern, pattern after pattern. */
  function RoundGroupsOf(patterns: seq<string>): (r: Result<seq<string>, ReaderError>)
    ensures r.Failure? <==> exists j :: 0 <= j < |patterns| && StrayCloser(patterns[j], Round)
    ensures r.Failure? ==> r.error == InvalidBraces
    ensures r.Success? ==> r.value == Flatten(EachRound(patterns))
  {
    if |patterns| == 0 then Success([])
    else
      match BraceReader(patterns[0], RoundBracketOpen, false)
      case Failure(e) => Failure(e)
      case Success(first) =>
        match RoundGroupsOf(patterns[1..])
        case Failure(e) =>
          assert exists j :: 0 <= j < |patterns| && StrayCloser(patterns[j], Round) by {
            var j :| 0 <= j < |patterns[1..]| && StrayCloser(patterns[1..][j], Round);
            assert patterns[j + 1] == patterns[1..][j];
          }
          Failure(e)
        case Success(rest) =>
          assert forall j :: 1 <= j < |patterns| ==> !StrayCloser(patterns[j], Round) by {
            forall j | 1 <= j < |patterns| ensures !StrayCloser(patterns[j], Round) {
              assert patterns[j] == patterns[1..][j - 1];
            }
          }
          assert EachRound(patterns) == [first] + EachRound(patterns[1..]);
          assert EachRound(patterns)[1..] == EachRound(patterns[1..]);
          Success(first + rest)
  }

  /** The round groups of one pattern are balanced substrings of it. */
  lemma RoundGroupsOfOne(pattern: string, groups: seq<string>)
    requires BraceReader(pattern, RoundBracketOpen, false) == Success(groups)
    ensures forall u :: u in groups ==> Balanced(u, Round) && IsSubstring(u, pattern)
  {
    WholeGroupsAreBalancedSubstrings(pattern, RoundBracketOpen);
    var spans := GroupSpans(pattern, RoundBracketOpen).value;
    forall u | u in groups
      ensures Balanced(u, Round) && IsSubstring(u, pattern)
    {
      var j :| 0 <= j < |groups| && groups[j] == u;
      assert SubstringAt(u, pattern, spans[j].lo);
    }
  }

  /** Every element of the flattened result is a balanced round group cut
      from one of the patterns. */
  lemma RoundGroupsSound(patterns: seq<string>)
    requires RoundGroupsOf(patterns).Success?
    ensures forall u :: u in RoundGroupsOf(patterns).value ==>
              Balanced(u, Round) && exists j :: 0 <= j < |patterns| && IsSubstring(u, patterns[j])
  {
    var xss := EachRound(patterns);
    forall u | u in RoundGroupsOf(patterns).value
      ensures Balanced(u, Round) && exists j :: 0 <= j < |patterns| && IsSubstring(u, patterns[j])
    {
      FlattenMember(xss, u);
      var j, k :| 0 <= j < |xss| && 0 <= k < |xss[j]| && xss[j][k] == u;
      assert !StrayCloser(patterns[j], Round);
      var groups := BraceReader(patterns[j], RoundBracketOpen, false).value;
      assert xss[j] == groups;
      RoundGroupsOfOne(patterns[j], groups);
    }
  }

  /** Flattening two lists of arrays one after another. */
  lemma {:induction false} FlattenAppend(xs: seq<seq<string>>, ys: seq<seq<string>>)
    ensures Flatten(xs + ys) == Flatten(xs) + Flatten(ys)
  {
    if |xs| == 0 {
      assert xs + ys == ys;
    } else {
      assert (xs + ys)[0] == xs[0];
      assert (xs + ys)[1..] == xs[1..] + ys;
      FlattenAppend(xs[1..], ys);
    }
  }

  /** Every element of every inner array appears in the flattening. */
  lemma {:induction false} FlattenContains(xss: seq<seq<string>>, j: nat, k: nat)
    requires j < |xss| && k < |xss[j]|
    ensures xss[j][k] in Flatten(xss)
  {
    if j > 0 {
      assert xss[1..][j - 1] == xss[j];
      FlattenContains(xss[1..], j - 1, k);
    }
  }

  /** Every element of the flattening comes from some inner array. */
  lemma {:induction false} FlattenMember(xss: seq<seq<string>>, u: string)
    requires u in Flatten(xss)
    ensures exists j, k :: 0 <= j < |xss| && 0 <= k < |xss[j]| && xss[j][k] == u
  {
    if u in xss[0] {
      var k :| 0 <= k < |xss[0]| && xss[0][k] == u;
    } else {
      FlattenMember(xss[1..], u);
      var j, k :| 0 <= j < |xss[1..]| && 0 <= k < |xss[1..][j]| && xss[1..][j][k] == u;
      assert xss[j + 1] == xss[1..][j];
    }
  }

  /** Mapping over two lists one after another. */
  lemma EachRoundAppend(a: seq<string>, b: seq<string>)
    ensures EachRound(a + b) == EachRound(a) + EachRound(b)
  {
    var l, r := EachRound(a + b), EachRound(a) + EachRound(b);
    forall j | 0 <= j < |a + b| ensures l[j] == r[j] {
      if j < |a| {
        assert (a + b)[j] == a[j];
      } else {
        assert (a + b)[j] == b[j - |a|];
      }
    }
  }

  /** Scanning a list of groups one after another: the result for two lists
      is the result for the first followed by the result for the second. */
  lemma RoundGroupsOfAppend(a: seq<string>, b: seq<string>)
    ensures RoundGroupsOf(a + b).Success? <==> RoundGroupsOf(a).Success? && RoundGroupsOf(b).Success?
    ensures RoundGroupsOf(a + b).Success? ==>
              RoundGroupsOf(a + b).value == RoundGroupsOf(a).value + RoundGroupsOf(b).value
  {
    EachRoundAppend(a, b);
    FlattenAppend(EachRound(a), EachRound(b));
    if RoundGroupsOf(a + b).Failure? {
      var j :| 0 <= j < |a + b| && StrayCloser((a + b)[j], Round);
      if j < |a| {
        assert (a + b)[j] == a[j];
      } else {
        assert (a + b)[j] == b[j - |a|];
      }
    } else {
      forall j | 0 <= j < |a| ensures !StrayCloser(a[j], Round) {
        assert (a + b)[j] == a[j];
      }
      forall j | 0 <= j < |b| ensures !StrayCloser(b[j], Round) {
        assert (a + b)[|a| + j] == b[j];
      }
    }
  }

  /** configsFinder returns every round group of every square group: the k-th
      round group of the j-th square group is in the value. */
  lemma EveryRoundGroupReturned(text: string, filePath: string)
    requires ConfigsFinder(text, filePath).Success?
    ensures var squares := BraceReader(CleanText(text), SquareBracketOpen, false).value;
            forall j, k :: 0 <= j < |squares| && 0 <= k < |RoundGroupsIn(squares[j])| ==>
              RoundGroupsIn(squares[j])[k] in ConfigsFinder(text, filePath).value[AppNameKey(CleanText(text), filePath)]
  {
    var squares := BraceReader(CleanText(text), SquareBracketOpen, false).value;
    forall j, k | 0 <= j < |squares| && 0 <= k < |RoundGroupsIn(squares[j])|
      ensures RoundGroupsIn(squares[j])[k] in Flatten(EachRound(squares))
    {
      assert EachRound(squares)[j] == RoundGroupsIn(squares[j]);
      FlattenContains(EachRound(squares), j, k);
    }
  }

  /** configsFinder(text, filePath). */
  function ConfigsFinder(text: string, filePath: string): (r: Result<map<string, seq<string>>, ReaderError>)
    ensures r.Success? ==> |r.value| == 1 && r.value.Keys == {AppNameKey(CleanText(text), filePath)}
    ensures r.Failure? <==>
              || StrayCloser(CleanText(text), Square)
              || exists g :: g in BraceReader(CleanText(text), SquareBracketOpen, false).value
                             && StrayCloser(g, Round)
    ensures r.Failure? ==> r.error == InvalidBraces
    ensures r.Success? ==> BraceReader(CleanText(text), SquareBracketOpen, false).Success?
    ensures r.Success? ==>
              r.value[AppNameKey(CleanText(text), filePath)] ==
              Flatten(EachRound(BraceReader(CleanText(text), SquareBracketOpen, false).value))
    ensures r.Success? ==> forall u :: u in r.value[AppNameKey(CleanText(text), filePath)] ==>
              && Balanced(u, Round)
              && u[0] == '(' && u[|u| - 1] == ')'
              && IsSubstring(u, CleanText(text))
  {
    var formattedText := CleanText(text);
    var appName := AppNameKey(formattedText, filePath);
    match BraceReader(formattedText, SquareBracketOpen, false)
    case Failure(e) => Failure(e)
    case Success(urlPatterns) =>
      match RoundGroupsOf(urlPatterns)
      case Failure(e) =>
        assert exists g :: g in urlPatterns && StrayCloser(g, Round) by {
          var j :| 0 <= j < |urlPatterns| && StrayCloser(urlPatterns[j], Round);
          assert urlPatterns[j] in urlPatterns;
        }
        Failure(e)
      case Success(urls) =>
        RoundGroupsSound(urlPatterns);
        SquareGroupsAreSubstrings(formattedText, urlPatterns);
        var result := map[appName := urls];
        assert result.Keys == {appName};
        Success(result)
  }

  /** Every round group found inside a square group of the text is a
      substring of the text itself. */
  lemma SquareGroupsAreSubstrings(formattedText: string, urlPatterns: seq<string>)
    requires BraceReader(formattedText, SquareBracketOpen, false) == Success(urlPatterns)
    requires RoundGroupsOf(urlPatterns).Success?
    ensures forall u :: u in RoundGroupsOf(urlPatterns).value ==> IsSubstring(u, formattedText)
  {
    var urls := RoundGroupsOf(urlPatterns).value;
    RoundGroupsSound(urlPatterns);
    forall u | u in urls
      ensures IsSubstring(u, formattedText)
    {
      var j :| 0 <= j < |urlPatterns| && IsSubstring(u, urlPatterns[j]);
      InsideSquareGroup(formattedText, urlPatterns, j, u);
    }
  }

  /** A substring of one square group is a substring of the text. */
  lemma InsideSquareGroup(formattedText: string, urlPatterns: seq<string>, j: nat, u: string)
    requires BraceReader(formattedText, SquareBracketOpen, false) == Success(urlPatterns)
    requires j < |urlPatterns| && IsSubstring(u, urlPatterns[j])
    ensures IsSubstring(u, formattedText)
  {
    assert GroupSpans(formattedText, SquareBracketOpen).Success?;
    ReaderCuts(formattedText, SquareBracketOpen, false);
    var s := GroupSpans(formattedText, SquareBracketOpen).value[j];
    assert urlPatterns[j] == Cut(formattedText, s, false) == formattedText[s.lo .. s.hi + 1];
    SubstringOfSlice(u, formattedText, s.lo, s.hi + 1);
  }
}
