/** Boyer-Moore search with the Horspool bad-character rule: a shift
    table keyed by the characters of the pattern, and windows compared
    right to left. */
module BoyerMoore {
  import opened SearchSpec

  /** The set of characters that occur in `p`. */
  ghost function Chars(p: string): set<char>
  {
    set k | 0 <= k < |p| :: p[k]
  }

  /** Reference definition: the rightmost index below `n` holding `c`,
      or -1 when `c` does not occur in `p[..n]`. */
  function RightmostBefore(p: string, c: char, n: nat): (r: int)
    requires n <= |p|
    ensures -1 <= r < n
    ensures r >= 0 ==> p[r] == c
    ensures forall k :: r < k < n ==> p[k] != c
  {
    if n == 0 then -1
    else if p[n - 1] == c then n - 1
    else RightmostBefore(p, c, n - 1)
  }

  /** The shift the table promises for character `c` of the pattern:
      the distance from its rightmost occurrence in `p[..|p| - 1]` to the
      last position, or the whole length when it occurs only last. */
  function ExpectedShift(p: string, c: char): int
    requires |p| >= 1
  {
    var k := RightmostBefore(p, c, |p| - 1);
    if k >= 0 then |p| - 1 - k else |p|
  }

  /** `table` is the bad-character table of `p`. */
  ghost predicate IsShiftTable(p: string, table: map<char, int>)
    requires |p| >= 1
  {
    table.Keys == Chars(p) &&
    forall c :: c in table ==> table[c] == ExpectedShift(p, c)
  }

  /** The window shift for the character `c` under the window's last
      position: the table entry, or the pattern length for a character
      the table lacks (dict.get with a default). */
  function ShiftFor(table: map<char, int>, p: string, c: char): (r: int)
    requires |p| >= 1 && IsShiftTable(p, table)
    ensures r == if c in Chars(p) then ExpectedShift(p, c) else |p|
  {
    if c in table then table[c] else |p|
  }

  /** Horspool's rule is safe: the shift lies in [1, |p|], and `c` does
      not occur in `p` strictly between position `|p| - 1 - shift` and the
      last position. */
  lemma ShiftNeverSkipsMatch(p: string, table: map<char, int>, c: char)
    requires |p| >= 1 && IsShiftTable(p, table)
    ensures 1 <= ShiftFor(table, p, c) <= |p|
    ensures forall k :: |p| - 1 - ShiftFor(table, p, c) < k < |p| - 1 ==> p[k] != c
  {
    if c !in table {
      assert forall k :: 0 <= k < |p| ==> p[k] in Chars(p);
    }
  }

  /** Consequently no window strictly between `i` and `i + shift` can
      hold an occurrence: each would put a pattern position holding a
      different character under `data[i + |pat| - 1]`. */
  lemma ShiftedWindowsMiss(data: string, pat: string, table: map<char, int>, i: nat)
    requires |pat| >= 1 && IsShiftTable(pat, table) && i + |pat| <= |data|
    ensures forall s :: i < s < i + ShiftFor(table, pat, data[i + |pat| - 1]) ==> !MatchesAt(data, pat, s)
  {
    var c := data[i + |pat| - 1];
    ShiftNeverSkipsMatch(pat, table, c);
    forall s | i < s < i + ShiftFor(table, pat, c) ensures !MatchesAt(data, pat, s) {
      MatchesAtPointwise(data, pat, s);
      assert pat[i + |pat| - 1 - s] != c;
      assert data[s + (i + |pat| - 1 - s)] == c;
    }
  }

  /** After entering `p[..n]`: a character is a key exactly when it occurs
      in `p[..n]`, and its value is the distance from its rightmost
      position there to the last position of `p`. */
  ghost predicate TableUpTo(p: string, table: map<char, int>, n: nat)
    requires n <= |p|
  {
    forall c :: (c in table <==> RightmostBefore(p, c, n) >= 0) &&
      (c in table ==> table[c] == |p| - 1 - RightmostBefore(p, c, n))
  }

  /** Entering `p[n]` with `|p| - n - 1` overwrites any earlier entry for
      it, so the table then describes `p[..n + 1]`. */
  lemma TableStep(p: string, table: map<char, int>, n: nat)
    requires n < |p| && TableUpTo(p, table, n)
    ensures TableUpTo(p, table[p[n] := |p| - n - 1], n + 1)
  {
  }

  /** The setdefault of the last character completes the table. */
  lemma TableFinish(p: string, table: map<char, int>)
    requires |p| >= 1 && TableUpTo(p, table, |p| - 1)
    ensures var last := p[|p| - 1];
      var full := if last in table then table else table[last := |p|];
      IsShiftTable(p, full) && forall c :: c in full ==> 1 <= full[c] <= |p|
  {
    var last := p[|p| - 1];
    var full := if last in table then table else table[last := |p|];
    forall c | c in Chars(p) ensures c in full {
      var k :| 0 <= k < |p| && p[k] == c;
      if k < |p| - 1 {
        assert RightmostBefore(p, c, |p| - 1) >= k;
      }
    }
    forall c | c in full ensures c in Chars(p) {
      if c != last {
        var r := RightmostBefore(p, c, |p| - 1);
        assert p[r] == c;
      }
    }
  }

  /** build_shift_table: every character of `p[..|p| - 1]` is entered
      left to right with `|p| - 1 - index`, so the rightmost position
      wins; the last character is then added with `|p|` only when absent
      (setdefault). */
  method BuildShiftTable(p: string) returns (table: map<char, int>)
    requires |p| >= 1
    ensures IsShiftTable(p, table)
    ensures forall c :: c in table ==> 1 <= table[c] <= |p|
  {
    table := map[];
    var length := |p|;
    for index := 0 to length - 1
      invariant TableUpTo(p, table, index)
    {
      TableStep(p, table, index);
      table := table[p[index] := length - index - 1];
    }
    TableFinish(p, table);
    if p[length - 1] !in table {
      table := table[p[length - 1] := length];
    }
  }

  /** boyer_moore_search: compare the window at `i` right to left; on a
      mismatch shift by the entry for `data[i + |pat| - 1]`. When the
      pattern is longer than the data no window fits and nothing is read. */
  method BoyerMooreSearch(data: string, pat: string) returns (r: int)
    requires |pat| >= 1
    ensures IsLeftmost(data, pat, r)
    ensures r == FirstOccurrence(data, pat)
  {
    var shiftTable := BuildShiftTable(pat);
    var i := 0;
    while i <= |data| - |pat|
      invariant 0 <= i
      invariant forall s :: s < i ==> !MatchesAt(data, pat, s)
      decreases |data| - i
    {
      var j := |pat| - 1;
      while j >= 0 && data[i + j] == pat[j]
        invariant -1 <= j < |pat|
        invariant forall t :: j < t < |pat| ==> data[i + t] == pat[t]
      {
        j := j - 1;
      }
      MatchesAtPointwise(data, pat, i);
      if j < 0 {
        LeftmostIsUnique(data, pat, i);
        return i;
      }
      var c := data[i + |pat| - 1];
      ShiftedWindowsMiss(data, pat, shiftTable, i);
      ShiftNeverSkipsMatch(pat, shiftTable, c);
      i := i + ShiftFor(shiftTable, pat, c);
    }
    LeftmostIsUnique(data, pat, -1);
    return -1;
  }
}
