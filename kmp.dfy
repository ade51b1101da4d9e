/** Knuth-Morris-Pratt search: the longest-proper-prefix-suffix (LPS)
    table of the pattern and the two-cursor scan over the data. */
module Kmp {
  import opened SearchSpec

  /** `k` is the length of a proper border of the prefix `p[..n]`: the
      first `k` characters of `p[..n]` equal its last `k`, and `k < n`. */
  ghost predicate IsBorder(p: string, n: nat, k: nat)
    requires n <= |p|
  {
    k < n && forall t :: 0 <= t < k ==> p[t] == p[n - k + t]
  }

  /** No border of `p[..n]` is longer than `k`. */
  ghost predicate NoBorderAbove(p: string, n: nat, k: nat)
    requires n <= |p|
  {
    forall k' :: k < k' < n ==> !IsBorder(p, n, k')
  }

  /** `k` is the longest proper border of `p[..n]`. */
  ghost predicate IsLongestBorder(p: string, n: nat, k: nat)
    requires n <= |p|
  {
    IsBorder(p, n, k) && NoBorderAbove(p, n, k)
  }

  /** The pointwise definition is the prefix/suffix slice equality. */
  lemma BorderAsSlices(p: string, n: nat, k: nat)
    requires n <= |p|
    ensures IsBorder(p, n, k) <==> k < n && p[..k] == p[n - k..n]
  {
    if k < n && p[..k] == p[n - k..n] {
      forall t | 0 <= t < k ensures p[t] == p[n - k + t] {
        assert p[..k][t] == p[n - k..n][t];
      }
    }
  }

  /** The longest border in slice form: `k` is the longest border of
      `p[..n]` exactly when the prefix and the suffix of length `k` are
      equal and no longer proper prefix equals the suffix of its length. */
  lemma LongestBorderAsSlices(p: string, n: nat, k: nat)
    requires n <= |p|
    ensures IsLongestBorder(p, n, k) <==>
      k < n && p[..k] == p[n - k..n] &&
      forall k' :: k < k' < n ==> p[..k'] != p[n - k'..n]
  {
    BorderAsSlices(p, n, k);
    forall k' | k < k' < n ensures IsBorder(p, n, k') <==> p[..k'] == p[n - k'..n] {
      BorderAsSlices(p, n, k');
    }
  }

  /** A border of `p[..n + 1]` of positive length `k` is a border of
      `p[..n]` of length `k - 1` extended by the character `p[n]`. */
  lemma BorderStep(p: string, n: nat, k: nat)
    requires n < |p| && 1 <= k
    ensures IsBorder(p, n + 1, k) <==> IsBorder(p, n, k - 1) && p[k - 1] == p[n]
  {
    if IsBorder(p, n, k - 1) && p[k - 1] == p[n] {
      forall t | 0 <= t < k ensures p[t] == p[n + 1 - k + t] {
        if t < k - 1 {
          assert p[t] == p[n - (k - 1) + t];
        }
      }
    }
  }

  /** Given a border `k` of `p[..n]`, the shorter borders of `p[..n]` are
      exactly the borders of `p[..k]`. */
  lemma BorderOfBorder(p: string, n: nat, k: nat, j: nat)
    requires n <= |p| && IsBorder(p, n, k) && j < k
    ensures IsBorder(p, k, j) <==> IsBorder(p, n, j)
  {
    if IsBorder(p, k, j) {
      forall t | 0 <= t < j ensures p[t] == p[n - j + t] {
        assert p[t] == p[k - j + t];
        assert p[k - j + t] == p[n - k + (k - j + t)];
      }
    }
    if IsBorder(p, n, j) {
      forall t | 0 <= t < j ensures p[t] == p[k - j + t] {
        assert p[t] == p[n - j + t];
        assert p[k - j + t] == p[n - k + (k - j + t)];
      }
    }
  }

  /** compute_lps, matching branch: when `p[i]` extends the border
      `length` of `p[..i]`, the extended border is the longest one of
      `p[..i + 1]`, and it bounds the borders of `p[..i + 2]`. */
  lemma LpsMatchStep(p: string, i: nat, length: nat)
    requires i < |p| && IsBorder(p, i, length) && NoBorderAbove(p, i + 1, length + 1)
    requires p[i] == p[length]
    ensures IsLongestBorder(p, i + 1, length + 1)
    ensures i + 1 < |p| ==> NoBorderAbove(p, i + 2, length + 2)
  {
    BorderStep(p, i, length + 1);
    if i + 1 < |p| {
      var n := i + 2;
      forall k | length + 2 < k < n ensures !IsBorder(p, n, k) {
        BorderStep(p, i + 1, k);
      }
    }
  }

  /** compute_lps, fall-back branch: when `p[i]` does not extend the
      border `length > 0`, the next candidate is the longest border of
      `p[..length]`, and no border skipped over can be extended. */
  lemma LpsFallbackStep(p: string, i: nat, length: nat, next: nat)
    requires i < |p| && 0 < length && IsBorder(p, i, length)
    requires NoBorderAbove(p, i + 1, length + 1) && p[i] != p[length]
    requires IsLongestBorder(p, length, next)
    ensures IsBorder(p, i, next) && NoBorderAbove(p, i + 1, next + 1)
  {
    BorderOfBorder(p, i, length, next);
    var n := i + 1;
    forall k | next + 1 < k < n ensures !IsBorder(p, n, k) {
      BorderStep(p, i, k);
      if k - 1 < length {
        BorderOfBorder(p, i, length, k - 1);
      }
    }
  }

  /** compute_lps, zero branch: when no border of `p[..i]` can be
      extended, the longest border of `p[..i + 1]` is empty. */
  lemma LpsZeroStep(p: string, i: nat)
    requires 0 < i < |p| && NoBorderAbove(p, i + 1, 1) && p[i] != p[0]
    ensures IsLongestBorder(p, i + 1, 0)
    ensures i + 1 < |p| ==> NoBorderAbove(p, i + 2, 1)
  {
    BorderStep(p, i, 1);
    if i + 1 < |p| {
      var n := i + 2;
      forall k | 1 < k < n ensures !IsBorder(p, n, k) {
        BorderStep(p, i + 1, k);
      }
    }
  }

  /** compute_lps: fills `lps` so that `lps[q]` is the length of the
      longest proper prefix of `p[..q + 1]` that is also its suffix. The
      running `length` is a border of `p[..i]`; on a mismatch it falls
      back through the entries already computed. */
  method ComputeLps(p: string) returns (lps: seq<nat>)
    ensures |lps| == |p|
    ensures |p| > 0 ==> lps[0] == 0
    ensures forall q :: 0 <= q < |p| ==> lps[q] <= q && IsLongestBorder(p, q + 1, lps[q])
  {
    lps := seq(|p|, _ => 0);
    var length: nat := 0;
    var i := 1;
    while i < |p|
      invariant |lps| == |p|
      invariant length < i && (|p| == 0 || i <= |p|)
      invariant i < |p| ==> IsBorder(p, i, length)
      invariant i < |p| ==> NoBorderAbove(p, i + 1, length + 1)
      invariant forall q :: 0 <= q < i && q < |p| ==> IsLongestBorder(p, q + 1, lps[q])
      decreases |p| - i, length
    {
      if p[i] == p[length] {
        LpsMatchStep(p, i, length);
        length := length + 1;
        lps := lps[i := length];
        i := i + 1;
      } else if length != 0 {
        LpsFallbackStep(p, i, length, lps[length - 1]);
        length := lps[length - 1];
      } else {
        LpsZeroStep(p, i);
        lps := lps[i := 0];
        i := i + 1;
      }
    }
  }

  /** kmp_search, fall-back step: when the `j > 0` characters before `i`
      match the pattern's prefix and `k` is the longest border of that
      prefix and `data[i]` mismatches, no occurrence starts between `i - j`
      and `i - k`, and the `k`
      characters before `i` match the pattern's prefix of length `k`. */
  lemma KmpFallback(data: string, pat: string, i: nat, j: nat, k: nat)
    requires 0 < j < |pat| && j <= i < |data| && data[i] != pat[j]
    requires forall t :: 0 <= t < j ==> data[i - j + t] == pat[t]
    requires IsLongestBorder(pat, j, k)
    ensures forall s :: i - j <= s < i - k ==> !MatchesAt(data, pat, s)
    ensures forall t :: 0 <= t < k ==> data[i - k + t] == pat[t]
  {
    forall s | i - j <= s < i - k ensures !MatchesAt(data, pat, s) {
      MatchesAtPointwise(data, pat, s);
      if s > i - j && MatchesAt(data, pat, s) {
        forall t | 0 <= t < i - s ensures pat[t] == pat[j - (i - s) + t] {
          assert data[s + t] == pat[t];
          assert data[i - j + (j - (i - s) + t)] == pat[j - (i - s) + t];
        }
        assert IsBorder(pat, j, i - s);
      }
    }
    forall t | 0 <= t < k ensures data[i - k + t] == pat[t] {
      assert pat[t] == pat[j - k + t];
      assert data[i - j + (j - k + t)] == pat[j - k + t];
    }
  }

  /** kmp_search: the text cursor `i` never moves back; the pattern cursor
      `j` counts the characters of the pattern matched just before `i`.
      On a mismatch `j` falls back to `lps[j - 1]`, which skips only start
      positions where the pattern cannot occur. */
  method KmpSearch(data: string, pat: string) returns (r: int)
    requires |pat| >= 1
    ensures IsLeftmost(data, pat, r)
    ensures r == FirstOccurrence(data, pat)
  {
    var M := |pat|;
    var N := |data|;
    var lps := ComputeLps(pat);
    var i, j := 0, 0;
    while i < N
      invariant 0 <= j < M && j <= i <= N
      invariant forall t :: 0 <= t < j ==> data[i - j + t] == pat[t]
      invariant forall s :: s < i - j ==> !MatchesAt(data, pat, s)
      decreases N - i, j
    {
      if pat[j] == data[i] {
        i, j := i + 1, j + 1;
      } else if j != 0 {
        KmpFallback(data, pat, i, j, lps[j - 1]);
        j := lps[j - 1];
      } else {
        MatchesAtPointwise(data, pat, i);
        i := i + 1;
      }
      if j == M {
        MatchesAtPointwise(data, pat, i - j);
        LeftmostIsUnique(data, pat, i - j);
        return i - j;
      }
    }
    forall s | i - j <= s ensures !MatchesAt(data, pat, s) { }
    LeftmostIsUnique(data, pat, -1);
    return -1;
  }
}
