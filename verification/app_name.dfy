/** The app-name lookup of src/reader/main.ts: the pattern
    `/app_name.*?['"](?<appName>.*?)['"]/` and getGroupMatch.

    Without the `s` flag `.` stops at a line terminator, and both `.*?` are
    lazy, so a backtracking matcher returns, among all ways the pattern fits,
    the one with the leftmost start, then the earliest opening quote, then the
    earliest closing quote. That is the specification `MatchAppName` meets. */
module AppName {
  import opened Wrappers

  /** The literal the pattern starts with. */
  const Key: string := "app_name"

  /** The name of the capture group. */
  const GroupName: string := "appName"

  /** `['"]`: either quote counts, and the two quotes need not agree. */
  predicate IsQuote(c: char)
  {
    c == '\'' || c == '"'
  }

  /** The characters `.` does not match without the `s` flag. */
  predicate IsLineTerminator(c: char)
  {
    c == '\n' || c == '\r' || c == '\U{2028}' || c == '\U{2029}'
  }

  /** Where a match of the pattern lies: `Key` at start, the quote opening the
      capture at open and the quote closing it at close. */
  datatype AppNameMatch = AppNameMatch(start: nat, open: nat, close: nat)

  /** The pattern fits the text at these offsets. */
  ghost predicate IsMatch(s: string, m: AppNameMatch)
  {
    && m.start + |Key| <= m.open < m.close < |s|
    && s[m.start .. m.start + |Key|] == Key
    && IsQuote(s[m.open]) && IsQuote(s[m.close])
    && forall k :: m.start + |Key| <= k < m.close ==> !IsLineTerminator(s[k])
  }

  /** The order in which a backtracking matcher with lazy quantifiers tries
      the ways the pattern fits. */
  predicate TriedNoLaterThan(m1: AppNameMatch, m2: AppNameMatch)
  {
    || m1.start < m2.start
    || (m1.start == m2.start && m1.open < m2.open)
    || (m1.start == m2.start && m1.open == m2.open && m1.close <= m2.close)
  }

  /** No line terminator in s[from..to]. */
  ghost predicate SameLine(s: string, from: int, to: int)
    requires 0 <= from && to <= |s|
  {
    forall k :: from <= k < to ==> !IsLineTerminator(s[k])
  }

  /** The first quote at or after from with no line terminator before it. */
  function QuoteOnLine(s: string, from: nat): (r: Option<nat>)
    requires from <= |s|
    ensures r.Some? ==> from <= r.value < |s| && IsQuote(s[r.value])
    ensures r.Some? ==> forall k :: from <= k < r.value ==> !IsQuote(s[k]) && !IsLineTerminator(s[k])
    ensures r.None? ==> forall q :: from <= q < |s| && IsQuote(s[q]) ==> !SameLine(s, from, q)
    decreases |s| - from
  {
    if from == |s| then None
    else if IsQuote(s[from]) then Some(from)
    else if IsLineTerminator(s[from]) then
      assert forall q :: from < q < |s| ==> !SameLine(s, from, q) by {
        forall q | from < q < |s| ensures !SameLine(s, from, q) {
          assert IsLineTerminator(s[from]);
        }
      }
      None
    else
      var r := QuoteOnLine(s, from + 1);
      assert r.None? ==> forall q :: from <= q < |s| && IsQuote(s[q]) ==> !SameLine(s, from, q) by {
        if r.None? {
          forall q | from <= q < |s| && IsQuote(s[q]) ensures !SameLine(s, from, q) {
            assert q > from;
            assert !SameLine(s, from + 1, q);
          }
        }
      }
      r
  }

  /** `Key` occurs at offset p. */
  predicate KeyAt(s: string, p: nat)
  {
    p + |Key| <= |s| && s[p .. p + |Key|] == Key
  }

  /** The match that starts at p and is tried first, if the pattern fits there. */
  function MatchAt(s: string, p: nat): (r: Option<AppNameMatch>)
    ensures r.Some? ==> IsMatch(s, r.value) && r.value.start == p
    ensures r.Some? ==> forall m :: IsMatch(s, m) && m.start == p ==> TriedNoLaterThan(r.value, m)
    ensures r.None? ==> forall m :: IsMatch(s, m) ==> m.start != p
  {
    if !KeyAt(s, p) then None
    else
      match QuoteOnLine(s, p + |Key|)
      case None => None
      case Some(q) =>
        match QuoteOnLine(s, q + 1)
        case None =>
          NoFitWithoutSecondQuote(s, p, q);
          None
        case Some(c) => Some(AppNameMatch(p, q, c))
  }

  /** Without a second quote on the line after the first one, the pattern
      cannot fit at p: any fit's closing quote would be such a quote. */
  lemma NoFitWithoutSecondQuote(s: string, p: nat, q: nat)
    requires KeyAt(s, p)
    requires QuoteOnLine(s, p + |Key|) == Some(q)
    requires QuoteOnLine(s, q + 1).None?
    ensures forall m :: IsMatch(s, m) ==> m.start != p
  {
  }

  /** The first match starting at offset p or later. */
  function MatchFrom(s: string, p: nat): (r: Option<AppNameMatch>)
    ensures r.Some? ==> IsMatch(s, r.value) && p <= r.value.start
    ensures r.Some? ==> forall m :: IsMatch(s, m) && p <= m.start ==> TriedNoLaterThan(r.value, m)
    ensures r.None? ==> forall m :: IsMatch(s, m) ==> m.start < p
    decreases |s| - p
  {
    if p >= |s| then None
    else
      match MatchAt(s, p)
      case Some(m) => Some(m)
      case None => MatchFrom(s, p + 1)
  }

  /** `text.match(appNamePattern)`: where the pattern matches first, if anywhere. */
  function MatchAppName(s: string): (r: Option<AppNameMatch>)
    ensures r.None? <==> forall m :: !IsMatch(s, m)
    ensures r.Some? ==> IsMatch(s, r.value)
    ensures r.Some? ==> forall m :: IsMatch(s, m) ==> TriedNoLaterThan(r.value, m)
  {
    MatchFrom(s, 0)
  }

  /** The captured value of a match: the text between its two quotes. */
  function Capture(s: string, m: AppNameMatch): string
    requires m.open < m.close <= |s|
  {
    s[m.open + 1 .. m.close]
  }

  /** What the JavaScript match array exposes here: its named groups, when the
      pattern declares any, each with the text it captured. */
  datatype RegexMatch = RegexMatch(groups: Option<map<string, string>>)

  /** The match array of `text.match(appNamePattern)`, or null. */
  function AppNameMatchArray(s: string): (r: Option<RegexMatch>)
    ensures r.Some? <==> MatchAppName(s).Some?
    ensures r.Some? ==> r.value.groups == Some(map[GroupName := Capture(s, MatchAppName(s).value)])
  {
    match MatchAppName(s)
    case None => None
    case Some(m) => Some(RegexMatch(Some(map[GroupName := Capture(s, m)])))
  }

  /** The match carries a group of that name with that value. */
  predicate Captured(matches: Option<RegexMatch>, groupName: string, v: string)
  {
    && matches.Some?
    && matches.value.groups.Some?
    && groupName in matches.value.groups.value
    && matches.value.groups.value[groupName] == v
  }

  /** getGroupMatch(matches, groupName, fallback = ''): the group's value when
      it is there and non-empty (JavaScript truthiness), else the fallback. */
  function GetGroupMatch(matches: Option<RegexMatch>, groupName: string, fallback: string := ""): (r: string)
    ensures r == fallback || (Captured(matches, groupName, r) && r != "")
    ensures forall v :: Captured(matches, groupName, v) && v != "" ==> r == v
    ensures r == "" ==> fallback == ""
  {
    if matches.Some? && matches.value.groups.Some? && groupName in matches.value.groups.value
       && matches.value.groups.value[groupName] != ""
    then matches.value.groups.value[groupName]
    else fallback
  }
}
