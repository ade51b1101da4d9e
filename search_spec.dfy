/** The contract the three exact substring searches share: take
    (data, pattern) and answer the leftmost start index of the pattern in
    data, or -1 when the pattern does not occur. */
module SearchSpec {

  /** `pat` occurs in `data` starting at index `s`: the slice
      `data[s..s + |pat|]` exists and equals `pat`. */
  predicate MatchesAt(data: string, pat: string, s: int)
  {
    0 <= s && s + |pat| <= |data| && data[s..s + |pat|] == pat
  }

  /** The same property stated character by character. */
  lemma MatchesAtPointwise(data: string, pat: string, s: int)
    ensures MatchesAt(data, pat, s) <==>
      (0 <= s && s + |pat| <= |data| &&
       forall t :: 0 <= t < |pat| ==> data[s + t] == pat[t])
  {
    if 0 <= s && s + |pat| <= |data| {
      if forall t :: 0 <= t < |pat| ==> data[s + t] == pat[t] {
        assert data[s..s + |pat|] == pat;
      }
    }
  }

  /** `r` is a correct answer of a first-match search: either -1 and the
      pattern occurs nowhere, or an occurrence with none further left. */
  ghost predicate IsLeftmost(data: string, pat: string, r: int)
  {
    (r == -1 && forall s :: !MatchesAt(data, pat, s)) ||
    (MatchesAt(data, pat, r) && forall s :: s < r ==> !MatchesAt(data, pat, s))
  }

  /** Reference definition: scan the start positions from `s` upward and
      answer the first one where the pattern occurs. */
  function FirstOccurrenceFrom(data: string, pat: string, s: nat): (r: int)
    ensures r == -1 || (s <= r && MatchesAt(data, pat, r))
    ensures forall k :: s <= k && (r == -1 || k < r) ==> !MatchesAt(data, pat, k)
    decreases |data| - s
  {
    if s + |pat| > |data| then -1
    else if data[s..s + |pat|] == pat then s
    else FirstOccurrenceFrom(data, pat, s + 1)
  }

  /** The leftmost occurrence of `pat` in `data`, or -1. */
  function FirstOccurrence(data: string, pat: string): int
  {
    FirstOccurrenceFrom(data, pat, 0)
  }

  /** The reference scan is a correct answer, and it is the only one: any
      two searches that meet the shared contract return the same index. */
  lemma LeftmostIsUnique(data: string, pat: string, r: int)
    ensures IsLeftmost(data, pat, r) <==> r == FirstOccurrence(data, pat)
  {
    assert forall s :: s < 0 ==> !MatchesAt(data, pat, s);
  }

  /** Concrete scenarios: the matches the three searches report. */
  lemma KmpScenario()
    ensures FirstOccurrence("ababcabcabababd", "abcabababd") == 5
  {
    var d, p := "ababcabcabababd", "abcabababd";
    assert d[5..15] == p;
    assert d[0..10][2] != p[2];
    assert d[1..11][0] != p[0];
    assert d[2..12][5] != p[5];
    assert d[3..13][0] != p[0];
    assert d[4..14][0] != p[0];
    assert FirstOccurrenceFrom(d, p, 5) == 5;
  }

  lemma BoyerMooreScenario()
    ensures FirstOccurrence("here is a simple example", "example") == 17
  {
    var d, p := "here is a simple example", "example";
    assert d[17..24] == p;
    forall s | 0 <= s < 17 ensures !MatchesAt(d, p, s) {
      assert d[s..s + 7][0] == d[s] && d[s..s + 7][1] == d[s + 1];
      if d[s] == 'e' {
        assert s == 1 || s == 3 || s == 15;
      }
    }
    LeftmostIsUnique(d, p, 17);
  }

  lemma NotFoundScenario()
    ensures FirstOccurrence("hello world", "xyz") == -1
  {
    var d, p := "hello world", "xyz";
    forall s | 0 <= s ensures !MatchesAt(d, p, s) {
      if s + 3 <= |d| {
        assert d[s..s + 3][0] == d[s];
      }
    }
    LeftmostIsUnique(d, p, -1);
  }
}
