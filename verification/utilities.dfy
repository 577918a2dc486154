/** The balanced-delimiter scanner of src/reader/utilities.ts: the glyph table,
    the Braces enum and braceReader.

    braceReader makes one pass over the text keeping three variables: the
    nesting depth of the chosen pair (incCount), the offset where the current
    outermost group opened (homeIndex) and the groups emitted so far (results).
    `Scan(text, p, n)` is that state after the first n iterations of the loop;
    a group is recorded by its bounds and cut out of the text at the end. */
module Utilities {
  import opened Wrappers

  /** The glyph table: an opener at each even index, its closer right after it. */
  const BracePairs: seq<char> := ['(', ')', '[', ']', '{', '}', '<', '>']

  /** A value of the Braces enum, i.e. its ordinal, which indexes BracePairs. */
  newtype Brace = x: int | 0 <= x < 8

  const RoundBracketOpen: Brace := 0
  const RoundBracketClose: Brace := 1
  const SquareBracketOpen: Brace := 2
  const SquareBracketClose: Brace := 3
  const CurlyBracketOpen: Brace := 4
  const CurlyBracketClose: Brace := 5
  const AngleBracketOpen: Brace := 6
  const AngleBracketClose: Brace := 7

  /** The two TypeErrors braceReader throws. */
  datatype ReaderError =
    | InvalidOpeningBrace   // the enum value names a closing glyph
    | InvalidBraces         // a closer with no opener before it

  /** The bracket pair one scan tracks. */
  datatype Pair = Pair(open: char, close: char)

  /** Both the glyphs of the pair an opening enum value selects. */
  function PairOf(b: Brace): (p: Pair)
    requires b % 2 == 0
    ensures p.open != p.close
    ensures p.open in "([{<" && p.close in ")]}>"
  {
    match b
    case 0 => Pair('(', ')')
    case 2 => Pair('[', ']')
    case 4 => Pair('{', '}')
    case 6 => Pair('<', '>')
  }

  lemma PairOfReadsTable(b: Brace)
    requires b % 2 == 0
    ensures PairOf(b) == Pair(BracePairs[b], BracePairs[b + 1])
  {
  }

  /** How one character moves the depth of pair p. */
  function Step(c: char, p: Pair): int
  {
    if c == p.close then -1 else if c == p.open then 1 else 0
  }

  /** Openers minus closers of pair p among the first n characters. */
  function Depth(text: string, p: Pair, n: nat): int
    requires n <= |text|
  {
    if n == 0 then 0 else Depth(text, p, n - 1) + Step(text[n - 1], p)
  }

  /** Some prefix of the text has more closers than openers. */
  ghost predicate StrayCloser(text: string, p: Pair)
  {
    exists n :: 0 < n <= |text| && Depth(text, p, n) < 0
  }

  /** No prefix of length up to n has more closers than openers. */
  ghost predicate NeverNegative(text: string, p: Pair, n: nat)
    requires n <= |text|
  {
    forall m :: 0 <= m <= n ==> Depth(text, p, m) >= 0
  }

  /** The bounds of one emitted group: its opener at lo, its closer at hi. */
  datatype Span = Span(lo: int, hi: int)

  /** The loop variables of braceReader: incCount, homeIndex and results. */
  datatype ScanState = ScanState(depth: int, home: int, groups: seq<Span>)

  /** One iteration of braceReader's loop, at offset index. */
  function ScanStep(text: string, p: Pair, index: nat, st: ScanState): Result<ScanState, ReaderError>
    requires index < |text|
  {
    if text[index] == p.close then
      var depth := st.depth - 1;
      if depth == 0 then
        Success(ScanState(depth, index + 1, st.groups + [Span(st.home, index)]))
      else if depth < 0 then
        Failure(InvalidBraces)
      else
        Success(st.(depth := depth))
    else if text[index] == p.open then
      Success(st.(depth := st.depth + 1, home := if st.depth == 0 then index else st.home))
    else
      Success(st)
  }

  /** The loop state after its first n iterations, or the error one of them threw. */
  function Scan(text: string, p: Pair, n: nat): Result<ScanState, ReaderError>
    requires n <= |text|
  {
    if n == 0 then
      Success(ScanState(0, 0, []))
    else
      var st :- Scan(text, p, n - 1);
      ScanStep(text, p, n - 1, st)
  }

  /** The character at k opens a group of the pair at depth 0. */
  ghost predicate TopOpener(text: string, p: Pair, k: int)
  {
    0 <= k < |text| && text[k] == p.open && Depth(text, p, k) == 0
  }

  /** The span is an outermost group: it opens at depth 0, the depth stays
      positive inside it and returns to 0 exactly at its closer. */
  ghost predicate TopGroup(text: string, p: Pair, s: Span)
  {
    && 0 <= s.lo < s.hi < |text|
    && text[s.lo] == p.open && text[s.hi] == p.close
    && Depth(text, p, s.lo) == 0 && Depth(text, p, s.hi + 1) == 0
    && forall k :: s.lo < k <= s.hi ==> Depth(text, p, k) > 0
  }

  /** Every span ends before the next one starts. */
  ghost predicate Ordered(spans: seq<Span>)
  {
    forall i, j :: 0 <= i < j < |spans| ==> spans[i].hi < spans[j].lo
  }

  /** Some span opens at offset k. */
  ghost predicate StartsGroup(spans: seq<Span>, k: int)
  {
    exists j :: 0 <= j < |spans| && spans[j].lo == k
  }

  /** The group opened at k is still open at the end of the text. */
  ghost predicate NeverCloses(text: string, p: Pair, k: int)
    requires 0 <= k < |text|
  {
    forall m :: k < m <= |text| ==> Depth(text, p, m) > 0
  }

  /** The loop invariant after n iterations. */
  ghost predicate ScanInv(text: string, p: Pair, n: nat, st: ScanState)
    requires n <= |text|
  {
    && st.depth == Depth(text, p, n)
    && st.depth >= 0
    && (st.depth > 0 ==>
          && 0 <= st.home < n
          && TopOpener(text, p, st.home)
          && (forall k :: st.home < k <= n ==> Depth(text, p, k) > 0)
          && (forall j :: 0 <= j < |st.groups| ==> st.groups[j].hi < st.home))
    && (forall j :: 0 <= j < |st.groups| ==> TopGroup(text, p, st.groups[j]) && st.groups[j].hi < n)
    && Ordered(st.groups)
    && (forall k :: 0 <= k < n && TopOpener(text, p, k) ==>
          StartsGroup(st.groups, k) || (st.depth > 0 && k == st.home))
  }

  /** One loop iteration keeps the invariant, and throws exactly when it
      takes the depth below 0. */
  lemma ScanStepKeepsInv(text: string, p: Pair, i: nat, st: ScanState)
    requires i < |text|
    requires p.open != p.close
    requires ScanInv(text, p, i, st)
    ensures ScanStep(text, p, i, st).Success? <==> Depth(text, p, i + 1) >= 0
    ensures ScanStep(text, p, i, st).Failure? ==> ScanStep(text, p, i, st).error == InvalidBraces
    ensures ScanStep(text, p, i, st).Success? ==> ScanInv(text, p, i + 1, ScanStep(text, p, i, st).value)
  {
    assert Depth(text, p, i + 1) == st.depth + Step(text[i], p);
    if text[i] == p.close {
      if st.depth == 1 {
        CloseKeepsInv(text, p, i, st);
      }
    } else if text[i] == p.open {
      OpenKeepsInv(text, p, i, st);
    }
  }

  lemma CloseKeepsInv(text: string, p: Pair, i: nat, st: ScanState)
    requires i < |text|
    requires p.open != p.close
    requires ScanInv(text, p, i, st)
    requires text[i] == p.close && st.depth == 1
    ensures ScanInv(text, p, i + 1, ScanStep(text, p, i, st).value)
  {
    var g := Span(st.home, i);
    var st' := ScanState(0, i + 1, st.groups + [g]);
    assert ScanStep(text, p, i, st) == Success(st');
    assert Depth(text, p, i + 1) == 0;
    assert TopGroup(text, p, g);
    PushKeepsOrdered(st.groups, g);
    forall j | 0 <= j < |st'.groups|
      ensures TopGroup(text, p, st'.groups[j]) && st'.groups[j].hi < i + 1
    {
      if j < |st.groups| {
        assert st'.groups[j] == st.groups[j];
      }
    }
    forall k | 0 <= k < i + 1 && TopOpener(text, p, k)
      ensures StartsGroup(st'.groups, k)
    {
      if k == st.home {
        assert st'.groups[|st.groups|].lo == k;
      } else {
        var j :| 0 <= j < |st.groups| && st.groups[j].lo == k;
        assert st'.groups[j].lo == k;
      }
    }
  }

  /** A span after every recorded one keeps the list ordered. */
  lemma PushKeepsOrdered(spans: seq<Span>, s: Span)
    requires Ordered(spans) && s.lo <= s.hi
    requires forall j :: 0 <= j < |spans| ==> spans[j].hi < s.lo
    ensures Ordered(spans + [s])
  {
  }

  lemma OpenKeepsInv(text: string, p: Pair, i: nat, st: ScanState)
    requires i < |text|
    requires p.open != p.close
    requires ScanInv(text, p, i, st)
    requires text[i] == p.open
    ensures ScanInv(text, p, i + 1, ScanStep(text, p, i, st).value)
  {
  }

  /** The loop throws exactly when some prefix has more closers than openers,
      and otherwise keeps its invariant. */
  lemma {:induction false} ScanInvariant(text: string, p: Pair, n: nat)
    requires n <= |text|
    requires p.open != p.close
    ensures Scan(text, p, n).Success? <==> NeverNegative(text, p, n)
    ensures Scan(text, p, n).Failure? ==> Scan(text, p, n).error == InvalidBraces
    ensures Scan(text, p, n).Success? ==> ScanInv(text, p, n, Scan(text, p, n).value)
  {
    if n == 0 {
      assert NeverNegative(text, p, 0);
    } else {
      ScanInvariant(text, p, n - 1);
      var prev := Scan(text, p, n - 1);
      if prev.Failure? {
        assert !NeverNegative(text, p, n - 1);
        var m :| 0 <= m <= n - 1 && Depth(text, p, m) < 0;
        assert !NeverNegative(text, p, n);
      } else {
        ScanStepKeepsInv(text, p, n - 1, prev.value);
        if Scan(text, p, n).Success? {
          assert NeverNegative(text, p, n) by {
            forall m | 0 <= m <= n ensures Depth(text, p, m) >= 0 {
              if m < n {
                assert NeverNegative(text, p, n - 1);
              }
            }
          }
        }
      }
    }
  }

  /** The groups of the chosen pair as spans, or the error braceReader throws. */
  function GroupSpans(text: string, openingBrace: Brace): Result<seq<Span>, ReaderError>
  {
    if openingBrace % 2 != 0 then
      Failure(InvalidOpeningBrace)
    else
      var st :- Scan(text, PairOf(openingBrace), |text|);
      Success(st.groups)
  }

  /** The spans braceReader emits are exactly its outermost groups, left to
      right: each opens at depth 0 and closes where the depth first returns to
      0, and every depth-0 opener starts one unless it is never closed. */
  lemma GroupSpansCharacterised(text: string, openingBrace: Brace)
    requires openingBrace % 2 == 0
    ensures GroupSpans(text, openingBrace).Failure? <==> StrayCloser(text, PairOf(openingBrace))
    ensures GroupSpans(text, openingBrace).Failure? ==> GroupSpans(text, openingBrace).error == InvalidBraces
    ensures GroupSpans(text, openingBrace).Success? ==>
              var spans := GroupSpans(text, openingBrace).value;
              && (forall j :: 0 <= j < |spans| ==> TopGroup(text, PairOf(openingBrace), spans[j]))
              && Ordered(spans)
              && (forall k :: TopOpener(text, PairOf(openingBrace), k) ==>
                    StartsGroup(spans, k) || NeverCloses(text, PairOf(openingBrace), k))
  {
    var p := PairOf(openingBrace);
    ScanInvariant(text, p, |text|);
    if Scan(text, p, |text|).Success? {
      var st := Scan(text, p, |text|).value;
      forall k | TopOpener(text, p, k) && !StartsGroup(st.groups, k)
        ensures NeverCloses(text, p, k)
      {
      }
    } else {
      assert !NeverNegative(text, p, |text|);
      var m :| 0 <= m <= |text| && Depth(text, p, m) < 0;
      assert m != 0;
    }
  }

  /** The loop state after one more iteration. */
  lemma ScanUnfold(text: string, p: Pair, n: nat, st: ScanState)
    requires n < |text| && Scan(text, p, n) == Success(st)
    ensures Scan(text, p, n + 1) == ScanStep(text, p, n, st)
  {
  }

  /** The text braceReader pushes for a span: the whole group, or the group
      without its two brackets. */
  function Cut(text: string, s: Span, removeBrace: bool): string
    requires 0 <= s.lo < s.hi < |text|
  {
    if removeBrace then text[s.lo + 1 .. s.hi] else text[s.lo .. s.hi + 1]
  }

  /** braceReader(text, openingBrace, removeBrace). It throws for a closing
      enum value, whatever the text, and otherwise exactly when some closer
      of the pair has no opener before it; an opener left open is no error. */
  function BraceReader(text: string, openingBrace: Brace, removeBrace: bool): (r: Result<seq<string>, ReaderError>)
    ensures openingBrace % 2 != 0 ==> r == Failure(InvalidOpeningBrace)
    ensures openingBrace % 2 == 0 ==>
              (r.Failure? <==> StrayCloser(text, PairOf(openingBrace)))
    ensures openingBrace % 2 == 0 && r.Failure? ==> r.error == InvalidBraces
  {
    match GroupSpans(text, openingBrace)
    case Failure(e) =>
      if openingBrace % 2 == 0 then GroupSpansCharacterised(text, openingBrace); Failure(e)
      else Failure(e)
    case Success(spans) =>
      GroupSpansCharacterised(text, openingBrace);
      Success(seq(|spans|, j requires 0 <= j < |spans| => Cut(text, spans[j], removeBrace)))
  }

  /** What braceReader returns once the scan has succeeded: one cut per span. */
  lemma ReaderCuts(text: string, openingBrace: Brace, removeBrace: bool)
    requires GroupSpans(text, openingBrace).Success?
    ensures openingBrace % 2 == 0
    ensures BraceReader(text, openingBrace, removeBrace).Success?
    ensures |BraceReader(text, openingBrace, removeBrace).value| == |GroupSpans(text, openingBrace).value|
    ensures forall j :: 0 <= j < |GroupSpans(text, openingBrace).value| ==>
              && 0 <= GroupSpans(text, openingBrace).value[j].lo < GroupSpans(text, openingBrace).value[j].hi < |text|
              && BraceReader(text, openingBrace, removeBrace).value[j]
                 == Cut(text, GroupSpans(text, openingBrace).value[j], removeBrace)
  {
    GroupSpansCharacterised(text, openingBrace);
  }
}
