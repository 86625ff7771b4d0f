/**
 * Search and highlight over a document transcript (the transcript panel).
 *
 * The query is escaped so that the regular expression built from it matches
 * the query literally; the transcript is then searched case-insensitively
 * (ASCII folding), split into alternating non-match and match parts, and the
 * match parts are numbered left to right with exactly one of them active.
 */
module TranscriptSearch {
  import opened Wrappers
  import opened Text

  // ---------------------------------------------------------------------------
  // Escaping the query
  // ---------------------------------------------------------------------------

  /** The characters in the class `[.*+?^${}()|[\]\\]` of the escape expression. */
  predicate IsRegexMeta(c: char) {
    || c == '.' || c == '*' || c == '+' || c == '?' || c == '^' || c == '$'
    || c == '{' || c == '}' || c == '(' || c == ')' || c == '|' || c == '['
    || c == ']' || c == '\\'
  }

  /** `query.replace(/[.*+?^${}()|[\]\\]/g, "\\$&")`: a backslash before every
      metacharacter, every other character unchanged. */
  function Escape(q: string): (p: string)
    ensures |q| <= |p| <= 2 * |q|
    ensures q == [] <==> p == []
  {
    if q == [] then []
    else (if IsRegexMeta(q[0]) then ['\\', q[0]] else [q[0]]) + Escape(q[1..])
  }

  /** The literal text a pattern matches when it is made only of ordinary
      characters and backslash-escaped metacharacters; None for any pattern that
      uses an operator (a bare metacharacter or any other backslash escape). */
  function Literal(p: string): Option<string>
  {
    if p == [] then Some([])
    else if p[0] == '\\' then
      if |p| >= 2 && IsRegexMeta(p[1]) then
        match Literal(p[2..])
        case Some(rest) => Some([p[1]] + rest)
        case None => None
      else None
    else if IsRegexMeta(p[0]) then None
    else
      match Literal(p[1..])
      case Some(rest) => Some([p[0]] + rest)
      case None => None
  }

  /** The escaped query is a pure literal pattern and it matches exactly the query. */
  lemma {:induction false} EscapeIsLiteral(q: string)
    ensures Literal(Escape(q)) == Some(q)
  {
    if q != [] {
      var rest := Escape(q[1..]);
      EscapeIsLiteral(q[1..]);
      if IsRegexMeta(q[0]) {
        assert Escape(q)[2..] == rest;
      } else {
        assert Escape(q)[1..] == rest;
      }
      assert [q[0]] + q[1..] == q;
    }
  }

  /** Conversely, the escaped query is the only literal pattern for it. */
  lemma {:induction false} LiteralPatternIsEscape(p: string, q: string)
    requires Literal(p) == Some(q)
    ensures Escape(q) == p
  {
    if p != [] {
      if p[0] == '\\' {
        var rest := Literal(p[2..]).value;
        LiteralPatternIsEscape(p[2..], rest);
        assert q == [p[1]] + rest;
        assert q[1..] == rest;
        assert p == ['\\', p[1]] + p[2..];
      } else {
        var rest := Literal(p[1..]).value;
        LiteralPatternIsEscape(p[1..], rest);
        assert q == [p[0]] + rest;
        assert q[1..] == rest;
        assert p == [p[0]] + p[1..];
      }
    }
  }

  /** A query with regex operators in it becomes a literal pattern. */
  lemma EscapeExample()
    ensures Escape("3.5") == "3\\.5"
  {
    assert Escape(".5") == "\\.5";
  }

  // ---------------------------------------------------------------------------
  // Case-insensitive literal search (`transcript.match(new RegExp(p, "gi"))`)
  // ---------------------------------------------------------------------------

  /** The query occurs at position i as the `i` flag compares: each character
      equal to the query's after ASCII upper-casing. */
  predicate MatchesAt(t: string, q: string, i: nat) {
    i + |q| <= |t| && SameIgnoringCase(t[i..i + |q|], q)
  }

  /** How far the global search moves on after a match at some position: past
      the match, or one character on after an empty match. */
  function Step(q: string): nat {
    if |q| == 0 then 1 else |q|
  }

  /** The start positions of the matches found by repeated global search from i. */
  function MatchPositionsFrom(t: string, q: string, i: nat): seq<nat>
    decreases |t| + 1 - i
  {
    if i > |t| then []
    else if MatchesAt(t, q, i) then [i] + MatchPositionsFrom(t, q, i + Step(q))
    else MatchPositionsFrom(t, q, i + 1)
  }

  function MatchPositions(t: string, q: string): seq<nat> {
    MatchPositionsFrom(t, q, 0)
  }

  /** `matches ? matches.length : 0` */
  function CountMatches(t: string, q: string): nat {
    |MatchPositions(t, q)|
  }

  /** Leftmost, non-overlapping occurrences from position i on: every listed
      position is an occurrence, they are in order and do not overlap, and every
      occurrence at or after i overlaps one of them (none was skipped). */
  ghost predicate LeftmostNonOverlapping(t: string, q: string, i: nat, ps: seq<nat>) {
    && (forall k :: 0 <= k < |ps| ==> i <= ps[k] && MatchesAt(t, q, ps[k]))
    && Spaced(ps, |q|)
    && CoversOccurrences(t, q, i, ps)
  }

  /** Every position found by the global search from i is an occurrence at or after i. */
  lemma {:induction false} MatchPositionsSound(t: string, q: string, i: nat)
    requires |q| > 0
    ensures forall k :: 0 <= k < |MatchPositionsFrom(t, q, i)| ==>
              i <= MatchPositionsFrom(t, q, i)[k] && MatchesAt(t, q, MatchPositionsFrom(t, q, i)[k])
    decreases |t| + 1 - i
  {
    if i > |t| {
    } else if MatchesAt(t, q, i) {
      MatchPositionsSound(t, q, i + |q|);
    } else {
      MatchPositionsSound(t, q, i + 1);
    }
  }

  /** Positions in increasing order, each at least n after the one before. */
  ghost predicate Spaced(ps: seq<nat>, n: nat) {
    forall k, l :: 0 <= k < l < |ps| ==> ps[k] + n <= ps[l]
  }

  /** Every occurrence at or after i overlaps one of the positions. */
  ghost predicate CoversOccurrences(t: string, q: string, i: nat, ps: seq<nat>) {
    forall j :: i <= j && MatchesAt(t, q, j) ==>
      exists k :: 0 <= k < |ps| && ps[k] <= j < ps[k] + |q|
  }

  /** The positions found are in order and at least one query length apart. */
  lemma {:induction false} MatchPositionsDisjoint(t: string, q: string, i: nat)
    requires |q| > 0
    ensures Spaced(MatchPositionsFrom(t, q, i), |q|)
    decreases |t| + 1 - i
  {
    if i > |t| {
    } else if MatchesAt(t, q, i) {
      var rest := MatchPositionsFrom(t, q, i + |q|);
      MatchPositionsDisjoint(t, q, i + |q|);
      MatchPositionsSound(t, q, i + |q|);
      SpacedCons(i, rest, |q|);
    } else {
      MatchPositionsDisjoint(t, q, i + 1);
    }
  }

  /** A position at least n before every later one extends a spaced list. */
  lemma SpacedCons(p: nat, rest: seq<nat>, n: nat)
    requires Spaced(rest, n)
    requires forall k :: 0 <= k < |rest| ==> p + n <= rest[k]
    ensures Spaced([p] + rest, n)
  {
    var ps := [p] + rest;
    forall k, l | 0 <= k < l < |ps| ensures ps[k] + n <= ps[l] {
      assert ps[l] == rest[l - 1];
      if k > 0 {
        assert ps[k] == rest[k - 1];
      }
    }
  }

  /** No occurrence at or after i is skipped: each overlaps a position found. */
  lemma {:induction false} MatchPositionsComplete(t: string, q: string, i: nat)
    requires |q| > 0
    ensures CoversOccurrences(t, q, i, MatchPositionsFrom(t, q, i))
    decreases |t| + 1 - i
  {
    if i > |t| {
    } else if MatchesAt(t, q, i) {
      MatchPositionsComplete(t, q, i + |q|);
      CoversCons(t, q, i, MatchPositionsFrom(t, q, i + |q|));
    } else {
      MatchPositionsComplete(t, q, i + 1);
      CoversSkip(t, q, i, MatchPositionsFrom(t, q, i + 1));
    }
  }

  /** A position where the query does not occur needs no cover. */
  lemma CoversSkip(t: string, q: string, i: nat, ps: seq<nat>)
    requires !MatchesAt(t, q, i) && CoversOccurrences(t, q, i + 1, ps)
    ensures CoversOccurrences(t, q, i, ps)
  {
    forall j | i <= j && MatchesAt(t, q, j)
      ensures exists k :: 0 <= k < |ps| && ps[k] <= j < ps[k] + |q|
    {
      assert j != i;
    }
  }

  /** A match at i covers every occurrence that starts inside it. */
  lemma CoversCons(t: string, q: string, i: nat, rest: seq<nat>)
    requires CoversOccurrences(t, q, i + |q|, rest)
    ensures CoversOccurrences(t, q, i, [i] + rest)
  {
    var ps := [i] + rest;
    forall j | i <= j && MatchesAt(t, q, j)
      ensures exists k :: 0 <= k < |ps| && ps[k] <= j < ps[k] + |q|
    {
      if j < i + |q| {
        assert ps[0] <= j < ps[0] + |q|;
      } else {
        var k :| 0 <= k < |rest| && rest[k] <= j < rest[k] + |q|;
        assert ps[k + 1] == rest[k];
      }
    }
  }

  /** The match count is the number of leftmost, non-overlapping occurrences. */
  lemma CountIsLeftmostOccurrences(t: string, q: string)
    requires |q| > 0
    ensures LeftmostNonOverlapping(t, q, 0, MatchPositions(t, q))
    ensures CountMatches(t, q) == |MatchPositions(t, q)|
  {
    MatchPositionsSound(t, q, 0);
    MatchPositionsDisjoint(t, q, 0);
    MatchPositionsComplete(t, q, 0);
  }

  /** Non-overlapping occurrences fit in the transcript. */
  lemma {:induction false} CountBound(t: string, q: string, i: nat)
    requires |q| > 0 && i <= |t| + 1
    ensures |MatchPositionsFrom(t, q, i)| * |q| <= |t| + 1 - i
    decreases |t| + 1 - i
  {
    if i > |t| {
    } else if MatchesAt(t, q, i) {
      CountBound(t, q, i + |q|);
    } else {
      CountBound(t, q, i + 1);
    }
  }

  // ---------------------------------------------------------------------------
  // Splitting into parts (`transcript.split(new RegExp(`(${p})`, "gi"))`)
  // ---------------------------------------------------------------------------

  /** The split algorithm of ECMAScript's RegExp.prototype[@@split]: p is where
      the current non-match segment starts, i the position being tried. A match
      is cut out, together with its captured text, unless it ends where the
      segment starts (an empty match there is skipped). */
  function SplitFrom(t: string, q: string, p: nat, i: nat): seq<string>
    requires p <= i <= |t|
    decreases |t| - i, if p < i then 1 else 0
  {
    if i >= |t| then [t[p..]]
    else if MatchesAt(t, q, i) && i + |q| != p then
      [t[p..i], t[i..i + |q|]] + SplitFrom(t, q, i + |q|, i + |q|)
    else SplitFrom(t, q, p, i + 1)
  }

  function Split(t: string, q: string): seq<string> {
    if |t| == 0 then (if MatchesAt(t, q, 0) then [] else [""])
    else SplitFrom(t, q, 0, 0)
  }

  /** The parts joined back together, in order. */
  function Concat(parts: seq<string>): string {
    if parts == [] then [] else parts[0] + Concat(parts[1..])
  }

  lemma {:induction false} ConcatAppend(a: seq<string>, b: seq<string>)
    ensures Concat(a + b) == Concat(a) + Concat(b)
  {
    if a == [] {
      assert a + b == b;
    } else {
      assert (a + b)[0] == a[0];
      assert (a + b)[1..] == a[1..] + b;
      ConcatAppend(a[1..], b);
    }
  }

  /** The test of the render loop: `part.toLowerCase() === query.toLowerCase()`. */
  predicate IsMatchPart(part: string, q: string) {
    Lower(part) == Lower(q)
  }

  /** How many of the parts the render loop treats as matches. */
  function MatchPartsIn(parts: seq<string>, q: string): nat {
    if parts == [] then 0
    else MatchPartsIn(parts[..|parts| - 1], q) + (if IsMatchPart(parts[|parts| - 1], q) then 1 else 0)
  }

  lemma {:induction false} MatchPartsAppend(a: seq<string>, b: seq<string>, q: string)
    ensures MatchPartsIn(a + b, q) == MatchPartsIn(a, q) + MatchPartsIn(b, q)
    decreases |b|
  {
    if b == [] {
      assert a + b == a;
    } else {
      var n := |b| - 1;
      assert (a + b)[..|a + b| - 1] == a + b[..n];
      assert (a + b)[|a + b| - 1] == b[n];
      MatchPartsAppend(a, b[..n], q);
    }
  }

  ghost predicate NoMatchIn(t: string, q: string, p: nat, i: nat) {
    forall j :: p <= j < i ==> !MatchesAt(t, q, j)
  }

  /** Non-match and match parts alternate, starting with a non-match part. */
  ghost predicate Alternates(parts: seq<string>, q: string) {
    forall k :: 0 <= k < |parts| ==> (IsMatchPart(parts[k], q) <==> k % 2 == 1)
  }

  /** One match part per occurrence found by the global search, one non-match
      part around each of them. */
  lemma {:induction false} SplitFromLength(t: string, q: string, p: nat, i: nat)
    requires |q| > 0 && p <= i <= |t|
    ensures |SplitFrom(t, q, p, i)| == 2 * |MatchPositionsFrom(t, q, i)| + 1
    decreases |t| - i
  {
    if i >= |t| {
      assert !MatchesAt(t, q, i);
      assert MatchPositionsFrom(t, q, i + 1) == [];
    } else if MatchesAt(t, q, i) {
      SplitFromLength(t, q, i + |q|, i + |q|);
    } else {
      SplitFromLength(t, q, p, i + 1);
    }
  }

  /** The parts join back to the text from the segment start on. */
  lemma {:induction false} SplitFromConcat(t: string, q: string, p: nat, i: nat)
    requires |q| > 0 && p <= i <= |t|
    ensures Concat(SplitFrom(t, q, p, i)) == t[p..]
    decreases |t| - i
  {
    if i >= |t| {
      assert Concat([t[p..]]) == t[p..] + Concat([]);
    } else if MatchesAt(t, q, i) {
      var e := i + |q|;
      var rest := SplitFrom(t, q, e, e);
      assert SplitFrom(t, q, p, i) == [t[p..i], t[i..e]] + rest;
      SplitFromConcat(t, q, e, e);
      ConcatMatchStep(t, p, i, e, rest);
    } else {
      assert SplitFrom(t, q, p, i) == SplitFrom(t, q, p, i + 1);
      SplitFromConcat(t, q, p, i + 1);
    }
  }

  /** A segment and a match in front of parts spelling the rest spell the whole. */
  lemma ConcatMatchStep(t: string, p: nat, i: nat, e: nat, rest: seq<string>)
    requires p <= i <= e <= |t| && Concat(rest) == t[e..]
    ensures Concat([t[p..i], t[i..e]] + rest) == t[p..]
  {
    ConcatAppend([t[p..i], t[i..e]], rest);
    assert Concat([t[p..i], t[i..e]]) == t[p..i] + (t[i..e] + Concat([]));
    assert t[p..] == t[p..i] + t[i..e] + t[e..];
  }

  /** A segment in which no occurrence starts is not itself the query. */
  lemma SegmentIsNotMatch(t: string, q: string, p: nat, i: nat, j: nat)
    requires |q| > 0 && p <= j <= i && j <= |t| && NoMatchIn(t, q, p, i)
    ensures !IsMatchPart(t[p..j], q)
  {
    if j - p == |q| {
      assert t[p..p + |q|] == t[p..j];
      assert !MatchesAt(t, q, p);
      LowerEqualIff(t[p..j], q);
    }
  }

  /** The parts alternate, non-match first, when no occurrence starts between
      the segment start and the scan position. */
  lemma {:induction false} SplitFromAlternates(t: string, q: string, p: nat, i: nat)
    requires |q| > 0 && p <= i <= |t| && NoMatchIn(t, q, p, i)
    ensures Alternates(SplitFrom(t, q, p, i), q)
    decreases |t| - i
  {
    var parts := SplitFrom(t, q, p, i);
    if i >= |t| {
      SegmentIsNotMatch(t, q, p, i, |t|);
    } else if MatchesAt(t, q, i) {
      var e := i + |q|;
      var rest := SplitFrom(t, q, e, e);
      SplitFromAlternates(t, q, e, e);
      SegmentIsNotMatch(t, q, p, i, i);
      LowerEqualIff(t[i..e], q);
      assert parts == [t[p..i], t[i..e]] + rest;
      forall k | 0 <= k < |parts| ensures IsMatchPart(parts[k], q) <==> k % 2 == 1 {
        if k >= 2 { assert parts[k] == rest[k - 2]; }
      }
    } else {
      SplitFromAlternates(t, q, p, i + 1);
    }
  }

  /** In alternating parts, the first n hold n / 2 match parts. */
  lemma {:induction false} AlternatingPrefixCount(parts: seq<string>, q: string, n: nat)
    requires Alternates(parts, q) && n <= |parts|
    ensures MatchPartsIn(parts[..n], q) == n / 2
  {
    if n > 0 {
      AlternatingPrefixCount(parts, q, n - 1);
      assert parts[..n][..n - 1] == parts[..n - 1];
      assert parts[..n][n - 1] == parts[n - 1];
    }
  }

  /** For a non-empty query: the parts join back to the transcript, they alternate
      non-match / match, and the number of parts treated as matches by the render
      loop equals the match count. */
  lemma SplitShape(t: string, q: string)
    requires |q| > 0
    ensures var parts := Split(t, q);
            && |parts| == 2 * CountMatches(t, q) + 1
            && Concat(parts) == t
            && Alternates(parts, q)
            && MatchPartsIn(parts, q) == CountMatches(t, q)
  {
    var parts := Split(t, q);
    if |t| == 0 {
      assert parts == [""];
      assert MatchPositionsFrom(t, q, 1) == [];
      assert Concat(parts) == "" + Concat([]);
      assert parts[..0] == [];
    } else {
      SplitFromLength(t, q, 0, 0);
      SplitFromConcat(t, q, 0, 0);
      SplitFromAlternates(t, q, 0, 0);
    }
    AlternatingPrefixCount(parts, q, |parts|);
    assert parts[..|parts|] == parts;
  }

  // ---------------------------------------------------------------------------
  // The effect that publishes the match count
  // ---------------------------------------------------------------------------

  /** The counters the panel owns: how many matches, and which one is current. */
  datatype Counters = Counters(matchCount: nat, currentMatch: int)

  /** The effect run when the query or transcript changes: a blank query sets the
      count to 0 and leaves the current match alone; any other query sets the count
      of its matches and moves back to the first match. */
  function SearchEffect(t: string, q: string, currentMatch: int): (r: Counters)
    ensures IsBlank(q) ==> r == Counters(0, currentMatch)
    ensures !IsBlank(q) ==> r.currentMatch == 0 && r.matchCount == CountMatches(t, q)
  {
    if IsBlank(q) then Counters(0, currentMatch)
    else Counters(CountMatches(t, q), 0)
  }

  /** The blank test rules out the empty query. */
  lemma NonBlankIsNonEmpty(q: string)
    requires !IsBlank(q)
    ensures |q| > 0
  {
  }

  /** The count the effect publishes is the number of parts the render loop will
      highlight, and those occurrences are the leftmost non-overlapping ones. */
  lemma SearchEffectAgreesWithRender(t: string, q: string, currentMatch: int)
    requires !IsBlank(q)
    ensures SearchEffect(t, q, currentMatch).matchCount == MatchPartsIn(Split(t, q), q)
    ensures LeftmostNonOverlapping(t, q, 0, MatchPositions(t, q))
    ensures SearchEffect(t, q, currentMatch).matchCount == |MatchPositions(t, q)|
  {
    NonBlankIsNonEmpty(q);
    SplitShape(t, q);
    CountIsLeftmostOccurrences(t, q);
  }

  // ---------------------------------------------------------------------------
  // The render loop
  // ---------------------------------------------------------------------------

  /** A rendered part: plain text, or a highlighted match with its number and
      whether it carries the active style. */
  datatype Span = Plain(text: string) | Highlight(text: string, number: nat, active: bool)

  /** What the render loop promises for each part: same text, highlighted exactly
      when it is a match, numbered by the matches before it, active exactly when
      its number is the current match. */
  ghost predicate RenderedAs(parts: seq<string>, q: string, currentMatch: int, spans: seq<Span>) {
    && |spans| == |parts|
    && forall k :: 0 <= k < |parts| ==>
         && spans[k].text == parts[k]
         && (spans[k].Highlight? <==> IsMatchPart(parts[k], q))
         && (spans[k].Highlight? ==>
               spans[k].number == MatchPartsIn(parts[..k], q)
               && (spans[k].active <==> spans[k].number == currentMatch))
  }

  /** The `parts.map` render loop with its mutable `matchIndex` counter; the
      `matchRefs` it fills records, for each match number, which part it is. */
  method RenderParts(parts: seq<string>, q: string, currentMatch: int)
    returns (spans: seq<Span>, matchRefs: seq<nat>)
    ensures RenderedAs(parts, q, currentMatch, spans)
    ensures |matchRefs| == MatchPartsIn(parts, q)
    ensures forall m :: 0 <= m < |matchRefs| ==>
              matchRefs[m] < |spans| && spans[matchRefs[m]].Highlight? && spans[matchRefs[m]].number == m
  {
    spans, matchRefs := [], [];
    var matchIndex := 0;
    var index := 0;
    while index < |parts|
      invariant 0 <= index <= |parts|
      invariant RenderedAs(parts[..index], q, currentMatch, spans)
      invariant matchIndex == MatchPartsIn(parts[..index], q) == |matchRefs|
      invariant forall m :: 0 <= m < |matchRefs| ==>
                  matchRefs[m] < |spans| && spans[matchRefs[m]].Highlight? && spans[matchRefs[m]].number == m
    {
      var part := parts[index];
      ghost var before := spans;
      if Lower(part) == Lower(q) {
        var currentMatchIndex := matchIndex;
        matchIndex := matchIndex + 1;
        matchRefs := matchRefs + [index];
        spans := spans + [Highlight(part, currentMatchIndex, currentMatchIndex == currentMatch)];
      } else {
        spans := spans + [Plain(part)];
      }
      RenderedStep(parts, q, currentMatch, index, before, spans);
      index := index + 1;
    }
    assert parts[..index] == parts;
  }

  /** One more part rendered keeps the rendering of the prefix correct. */
  lemma RenderedStep(parts: seq<string>, q: string, currentMatch: int, index: nat,
                     before: seq<Span>, after: seq<Span>)
    requires index < |parts|
    requires RenderedAs(parts[..index], q, currentMatch, before)
    requires after == before + [if IsMatchPart(parts[index], q)
                                then Highlight(parts[index], MatchPartsIn(parts[..index], q),
                                               MatchPartsIn(parts[..index], q) == currentMatch)
                                else Plain(parts[index])]
    ensures RenderedAs(parts[..index + 1], q, currentMatch, after)
    ensures MatchPartsIn(parts[..index + 1], q)
              == MatchPartsIn(parts[..index], q) + (if IsMatchPart(parts[index], q) then 1 else 0)
  {
    var next := parts[..index + 1];
    assert next[..index] == parts[..index];
    forall k | 0 <= k < |next|
      ensures && after[k].text == next[k]
              && (after[k].Highlight? <==> IsMatchPart(next[k], q))
              && (after[k].Highlight? ==>
                    after[k].number == MatchPartsIn(next[..k], q)
                    && (after[k].active <==> after[k].number == currentMatch))
    {
      assert next[..k] == parts[..index][..k] || k == index;
      if k < index {
        assert next[..k] == parts[..index][..k];
        assert after[k] == before[k];
      }
    }
  }

  /** What the transcript panel shows. */
  datatype View = Unchanged(text: string) | Highlighted(spans: seq<Span>, matchRefs: seq<nat>)

  /** The panel: the transcript unchanged when the query is blank or the search tab
      is not open, otherwise the split transcript rendered part by part. */
  method RenderTranscript(t: string, q: string, isSearching: bool, currentMatch: int)
    returns (view: View)
    ensures IsBlank(q) || !isSearching ==> view == Unchanged(t)
    ensures !IsBlank(q) && isSearching ==>
              && view.Highlighted?
              && RenderedAs(Split(t, q), q, currentMatch, view.spans)
              && |view.matchRefs| == MatchPartsIn(Split(t, q), q)
  {
    if IsBlank(q) || !isSearching {
      return Unchanged(t);
    }
    var spans, matchRefs := RenderParts(Split(t, q), q, currentMatch);
    view := Highlighted(spans, matchRefs);
  }

  // ---------------------------------------------------------------------------
  // Properties of a rendering
  // ---------------------------------------------------------------------------

  function SpanTexts(spans: seq<Span>): string {
    if spans == [] then [] else spans[0].text + SpanTexts(spans[1..])
  }

  lemma {:induction false} SpanTextsOfRendering(parts: seq<string>, spans: seq<Span>)
    requires |spans| == |parts| && forall k :: 0 <= k < |parts| ==> spans[k].text == parts[k]
    ensures SpanTexts(spans) == Concat(parts)
  {
    if parts != [] {
      SpanTextsOfRendering(parts[1..], spans[1..]);
    }
  }

  lemma {:induction false} MatchPartsPrefixMonotone(parts: seq<string>, q: string, i: nat, j: nat)
    requires i <= j <= |parts|
    ensures MatchPartsIn(parts[..i], q) <= MatchPartsIn(parts[..j], q)
    ensures i < j && IsMatchPart(parts[i], q) ==> MatchPartsIn(parts[..i], q) < MatchPartsIn(parts[..j], q)
    decreases j - i
  {
    if i < j {
      MatchPartsPrefixMonotone(parts, q, i, j - 1);
      assert parts[..j][..j - 1] == parts[..j - 1];
      if i == j - 1 {
        assert parts[..j][j - 1] == parts[i];
      }
    }
  }

  /** Every match number below the count belongs to some match part. */
  lemma {:induction false} MatchNumberExists(parts: seq<string>, q: string, m: nat)
    requires m < MatchPartsIn(parts, q)
    ensures exists k :: 0 <= k < |parts| && IsMatchPart(parts[k], q) && MatchPartsIn(parts[..k], q) == m
  {
    var n := |parts| - 1;
    var prefix := parts[..n];
    if m < MatchPartsIn(prefix, q) {
      MatchNumberExists(prefix, q, m);
      var k :| 0 <= k < |prefix| && IsMatchPart(prefix[k], q) && MatchPartsIn(prefix[..k], q) == m;
      assert prefix[..k] == parts[..k];
    } else {
      assert IsMatchPart(parts[n], q) && MatchPartsIn(parts[..n], q) == m;
    }
  }

  /** The numbers carried by the highlighted spans. */
  ghost function HighlightNumbers(spans: seq<Span>): set<nat> {
    set k | 0 <= k < |spans| && spans[k].Highlight? :: spans[k].number
  }

  /** Match parts are numbered 0, 1, 2, ... left to right: the numbers used are
      exactly those below the count, and they grow from left to right. */
  lemma MatchNumbering(parts: seq<string>, q: string, currentMatch: int, spans: seq<Span>)
    requires RenderedAs(parts, q, currentMatch, spans)
    ensures forall k :: 0 <= k < |spans| && spans[k].Highlight? ==> spans[k].number < MatchPartsIn(parts, q)
    ensures forall k1, k2 :: 0 <= k1 < k2 < |spans| && spans[k1].Highlight? && spans[k2].Highlight? ==>
              spans[k1].number < spans[k2].number
    ensures forall m :: 0 <= m < MatchPartsIn(parts, q) ==> m in HighlightNumbers(spans)
  {
    forall k | 0 <= k < |spans| && spans[k].Highlight?
      ensures spans[k].number < MatchPartsIn(parts, q)
    {
      MatchPartsPrefixMonotone(parts, q, k, |parts|);
      assert parts[..|parts|] == parts;
    }
    forall k1, k2 | 0 <= k1 < k2 < |spans| && spans[k1].Highlight? && spans[k2].Highlight?
      ensures spans[k1].number < spans[k2].number
    {
      MatchPartsPrefixMonotone(parts, q, k1, k2);
    }
    forall m | 0 <= m < MatchPartsIn(parts, q)
      ensures m in HighlightNumbers(spans)
    {
      MatchNumberExists(parts, q, m);
      var k :| 0 <= k < |parts| && IsMatchPart(parts[k], q) && MatchPartsIn(parts[..k], q) == m;
      assert spans[k].Highlight? && spans[k].number == m;
    }
  }

  /** Exactly one part gets the active style when the current match is in range,
      and none does otherwise. */
  lemma ExactlyOneActive(parts: seq<string>, q: string, currentMatch: int, spans: seq<Span>)
    requires RenderedAs(parts, q, currentMatch, spans)
    ensures 0 <= currentMatch < MatchPartsIn(parts, q) ==>
              exists k :: 0 <= k < |spans| && spans[k].Highlight? && spans[k].active
    ensures forall k1, k2 ::
              (0 <= k1 < |spans| && 0 <= k2 < |spans| && spans[k1].Highlight? && spans[k1].active
               && spans[k2].Highlight? && spans[k2].active) ==> k1 == k2
    ensures !(0 <= currentMatch < MatchPartsIn(parts, q)) ==>
              forall k :: 0 <= k < |spans| && spans[k].Highlight? ==> !spans[k].active
  {
    MatchNumbering(parts, q, currentMatch, spans);
    if 0 <= currentMatch < MatchPartsIn(parts, q) {
      assert currentMatch in HighlightNumbers(spans);
      var k :| 0 <= k < |spans| && spans[k].Highlight? && spans[k].number == currentMatch;
      assert spans[k].active;
    }
  }

  /** The panel for a non-blank query: the highlighted parts spell the transcript,
      there are as many highlights as the published match count, and exactly the
      current one is active when it is in range. */
  lemma HighlightedViewFacts(t: string, q: string, currentMatch: int, view: View)
    requires !IsBlank(q) && view.Highlighted?
    requires RenderedAs(Split(t, q), q, currentMatch, view.spans)
    ensures SpanTexts(view.spans) == t
    ensures MatchPartsIn(Split(t, q), q) == SearchEffect(t, q, 0).matchCount
    ensures 0 <= currentMatch < CountMatches(t, q) <==>
              exists k :: 0 <= k < |view.spans| && view.spans[k].Highlight? && view.spans[k].active
  {
    NonBlankIsNonEmpty(q);
    SplitShape(t, q);
    SpanTextsOfRendering(Split(t, q), view.spans);
    ExactlyOneActive(Split(t, q), q, currentMatch, view.spans);
  }
}
