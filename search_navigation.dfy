/**
 * The search tab: the committed query, the text being typed, the match count
 * published by the transcript panel and the current match, with the Find,
 * Clear, previous and next controls.
 */
module SearchNavigation {
  import opened Text
  import TranscriptSearch

  /** The `next` updater: wrap to 0 at or past the last match. */
  function NextIndex(prev: int, matchCount: nat): int {
    if prev >= matchCount - 1 then 0 else prev + 1
  }

  /** The `prev` updater: wrap to the last match before the first. */
  function PrevIndex(prev: int, matchCount: nat): int {
    if prev - 1 < 0 then matchCount - 1 else prev - 1
  }

  /** With at least one match, both updaters keep an index in range, and they
      agree with arithmetic modulo the match count. */
  lemma NavigationInRange(i: int, matchCount: nat)
    requires 0 <= i < matchCount
    ensures 0 <= NextIndex(i, matchCount) < matchCount
    ensures 0 <= PrevIndex(i, matchCount) < matchCount
    ensures NextIndex(i, matchCount) == (i + 1) % matchCount
    ensures PrevIndex(i, matchCount) == (i - 1 + matchCount) % matchCount
  {
    if i == matchCount - 1 {
      ModUnique(i + 1, matchCount, 1, 0);
    } else {
      ModUnique(i + 1, matchCount, 0, i + 1);
    }
    if i == 0 {
      ModUnique(i - 1 + matchCount, matchCount, 0, matchCount - 1);
    } else {
      ModUnique(i - 1 + matchCount, matchCount, 1, i - 1);
    }
  }

  /** Next then previous, and previous then next, come back to an in-range index. */
  lemma NextPrevInverse(i: int, matchCount: nat)
    requires 0 <= i < matchCount
    ensures PrevIndex(NextIndex(i, matchCount), matchCount) == i
    ensures NextIndex(PrevIndex(i, matchCount), matchCount) == i
  {
  }

  /** Without the disabled buttons, `prev` from the first position of an empty
      result would leave the index at -1. */
  lemma UnguardedPrevGoesNegative()
    ensures PrevIndex(0, 0) == -1
  {
  }

  /** k presses of `next` from index i. */
  function NextTimes(i: int, matchCount: nat, k: nat): int {
    if k == 0 then i else NextIndex(NextTimes(i, matchCount, k - 1), matchCount)
  }

  /** Pressing `next` k times moves k matches on, cyclically; so matchCount presses
      come back to where they started. */
  lemma {:induction false} NextTimesIsRotation(i: int, matchCount: nat, k: nat)
    requires 0 <= i < matchCount
    ensures NextTimes(i, matchCount, k) == (i + k) % matchCount
  {
    if k > 0 {
      NextTimesIsRotation(i, matchCount, k - 1);
      var j := NextTimes(i, matchCount, k - 1);
      NavigationInRange(j, matchCount);
      assert (j + 1) % matchCount == (i + k) % matchCount by {
        assert j == (i + k - 1) % matchCount;
        ModSucc(i + k - 1, matchCount);
      }
    }
  }

  lemma ModSucc(a: nat, n: nat)
    requires n > 0
    ensures (a % n + 1) % n == (a + 1) % n
  {
    var d, r := a / n, a % n;
    if r + 1 < n {
      ModUnique(a + 1, n, d, r + 1);
      ModUnique(r + 1, n, 0, r + 1);
    } else {
      ModUnique(a + 1, n, d + 1, 0);
      ModUnique(r + 1, n, 1, 0);
    }
  }

  /** The remainder is determined by any quotient-remainder decomposition. */
  lemma ModUnique(x: int, n: int, d: int, r: int)
    requires n > 0 && 0 <= r < n && x == d * n + r
    ensures x % n == r
  {
    var d', r' := x / n, x % n;
    assert (d - d') * n == r' - r by {
      assert (d - d') * n == d * n - d' * n;
    }
    MulSign(d - d', n);
  }

  /** A non-zero multiple of n is at least n away from 0. */
  lemma {:induction false} MulSign(e: int, n: nat)
    ensures e >= 1 ==> e * n >= n
    ensures e <= -1 ==> e * n <= 0 - n
    decreases if e < 0 then -e else e
  {
    if e > 1 {
      MulSign(e - 1, n);
      assert e * n == (e - 1) * n + n;
    } else if e < -1 {
      MulSign(e + 1, n);
      assert e * n == (e + 1) * n - n;
    }
  }

  class SearchSession {
    /** The committed query (the page's `searchQuery`). */
    var query: string
    /** The text in the search box (`searchText`). */
    var searchText: string
    /** The number of matches published by the transcript panel. */
    var matchCount: nat
    /** The zero-based current match. */
    var currentMatch: int

    /** While there are matches, the current one is one of them. */
    ghost predicate Valid()
      reads this
    {
      matchCount > 0 ==> 0 <= currentMatch < matchCount
    }

    /** The page starts with an empty query and no matches. */
    constructor ()
      ensures Valid()
      ensures query == "" && searchText == "" && matchCount == 0 && currentMatch == 0
    {
      query, searchText := "", "";
      matchCount, currentMatch := 0, 0;
    }

    /** Typing into the search box. */
    method Type(text: string)
      requires Valid()
      modifies this
      ensures Valid()
      ensures searchText == text
      ensures query == old(query) && matchCount == old(matchCount) && currentMatch == old(currentMatch)
    {
      searchText := text;
    }

    /** `handleFind`: pressing Find again on the committed, non-empty text moves to
        the next match; in every case the typed text becomes the query. */
    method Find()
      requires Valid()
      modifies this
      ensures Valid()
      ensures query == old(searchText) && searchText == old(searchText) && matchCount == old(matchCount)
      ensures currentMatch == if old(query) == old(searchText) && old(searchText) != ""
                              then NextIndex(old(currentMatch), old(matchCount))
                              else old(currentMatch)
    {
      if query == searchText && searchText != "" {
        if matchCount > 0 { NavigationInRange(currentMatch, matchCount); }
        currentMatch := NextIndex(currentMatch, matchCount);
      }
      query := searchText;
    }

    /** `handleClear`: the box and the query are emptied and the first match is current. */
    method Clear()
      requires Valid()
      modifies this
      ensures Valid()
      ensures searchText == "" && query == "" && currentMatch == 0 && matchCount == old(matchCount)
    {
      searchText := "";
      query := "";
      currentMatch := 0;
    }

    /** The transcript panel's effect, run when the query (or transcript) changes. */
    method Recount(transcript: string)
      requires Valid()
      modifies this
      ensures Valid()
      ensures query == old(query) && searchText == old(searchText)
      ensures IsBlank(query) ==> matchCount == 0 && currentMatch == old(currentMatch)
      ensures !IsBlank(query) ==>
                matchCount == TranscriptSearch.CountMatches(transcript, query) && currentMatch == 0
    {
      var c := TranscriptSearch.SearchEffect(transcript, query, currentMatch);
      matchCount, currentMatch := c.matchCount, c.currentMatch;
    }

    /** Find followed by the panel's effect, which runs only when the query changed. */
    method FindIn(transcript: string)
      requires Valid()
      modifies this
      ensures Valid()
      ensures query == old(searchText) && searchText == old(searchText)
      ensures query != old(query) && IsBlank(query) ==>
                matchCount == 0 && currentMatch == old(currentMatch)
      ensures query != old(query) && !IsBlank(query) ==>
                matchCount == TranscriptSearch.CountMatches(transcript, query) && currentMatch == 0
      ensures query == old(query) ==>
                matchCount == old(matchCount)
                && currentMatch == if query != "" then NextIndex(old(currentMatch), old(matchCount))
                                   else old(currentMatch)
    {
      var before := query;
      Find();
      if query != before {
        Recount(transcript);
      }
    }

    /** The navigation row is shown only for a non-blank query. */
    predicate ShowsNavigation()
      reads this
    {
      Trim(query) != ""
    }

    /** The → button: shown for a non-blank query, disabled without matches. */
    method PressNext()
      requires Valid()
      modifies this
      ensures Valid()
      ensures query == old(query) && searchText == old(searchText) && matchCount == old(matchCount)
      ensures currentMatch == if ShowsNavigation() && matchCount > 0
                              then NextIndex(old(currentMatch), matchCount)
                              else old(currentMatch)
    {
      if ShowsNavigation() && matchCount > 0 {
        NavigationInRange(currentMatch, matchCount);
        currentMatch := NextIndex(currentMatch, matchCount);
      }
    }

    /** The ← button: shown for a non-blank query, disabled without matches. */
    method PressPrev()
      requires Valid()
      modifies this
      ensures Valid()
      ensures query == old(query) && searchText == old(searchText) && matchCount == old(matchCount)
      ensures currentMatch == if ShowsNavigation() && matchCount > 0
                              then PrevIndex(old(currentMatch), matchCount)
                              else old(currentMatch)
    {
      if ShowsNavigation() && matchCount > 0 {
        NavigationInRange(currentMatch, matchCount);
        currentMatch := PrevIndex(currentMatch, matchCount);
      }
    }

    /** The "k of n" position: one-based while there are matches, 0 otherwise. */
    function Position(): (k: int)
      reads this
      ensures matchCount == 0 ==> k == 0
      ensures Valid() && matchCount > 0 ==> 1 <= k <= matchCount
    {
      if matchCount > 0 then currentMatch + 1 else 0
    }
  }
}
