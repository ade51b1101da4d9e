/** Rabin-Karp search: a polynomial hash of the pattern and a rolling
    hash of the current data window; every hash hit is confirmed by
    comparing the window with the pattern. */
module RabinKarp {
  import opened SearchSpec

  /** The code point of a character (Python's ord): a Unicode scalar
      value, below 0x110000 and outside the surrogate range. */
  function Ord(c: char): (r: nat)
    ensures r < 0x11_0000 && (r < 0xD800 || 0xDFFF < r)
  {
    c as int
  }

  /** `b` raised to the power `e`. */
  function Pow(b: int, e: nat): int
  {
    if e == 0 then 1 else b * Pow(b, e - 1)
  }

  /** The hash polynomial before reduction:
      the sum over i of ord(s[i]) * b^(|s| - i - 1). */
  function Weighted(s: string, b: int): int
  {
    if |s| == 0 then 0 else Ord(s[0]) * Pow(b, |s| - 1) + Weighted(s[1..], b)
  }

  /** Ring arithmetic for one Horner step: `o * (b * q) + w * b` factors
      as `(o * q + w) * b`. */
  lemma MulFactor(o: int, q: int, w: int, b: int)
    ensures o * (b * q) + w * b == (o * q + w) * b
  {
  }

  /** Appending a character multiplies the polynomial by the base and adds
      the new code point (Horner's rule); this is what makes the hash roll. */
  lemma {:induction false} WeightedAppend(s: string, c: char, b: int)
    ensures Weighted(s + [c], b) == Weighted(s, b) * b + Ord(c)
  {
    if |s| == 0 {
      assert s + [c] == [c];
      assert [c][1..] == [];
    } else {
      var t := s[1..];
      assert (s + [c])[1..] == t + [c];
      WeightedAppend(t, c, b);
      var o, q, w := Ord(s[0]), Pow(b, |s| - 1), Weighted(t, b);
      assert Weighted(s + [c], b) == o * Pow(b, |s|) + (w * b + Ord(c));
      assert Pow(b, |s|) == b * q;
      MulFactor(o, q, w, b);
    }
  }

  /** A positive multiple of a positive `m` is at least `m`. */
  lemma MultipleAtLeast(d: int, m: int)
    requires d >= 1 && m > 0
    ensures d * m >= m
  {
    assert d * m == (d - 1) * m + m;
    assert (d - 1) * m >= 0;
  }

  /** Division by a positive `m` is unique: `q * m + r` with `0 <= r < m`
      has remainder `r`. */
  lemma ModUnique(a: int, q: int, r: int, m: int)
    requires m > 0 && 0 <= r < m && a == q * m + r
    ensures a % m == r
  {
    var q0, r0 := a / m, a % m;
    assert a == q0 * m + r0;
    assert (q - q0) * m == r0 - r;
    if q - q0 >= 1 {
      MultipleAtLeast(q - q0, m);
    } else if q0 - q >= 1 {
      MultipleAtLeast(q0 - q, m);
    }
  }

  /** Adding a multiple of a positive modulus leaves the residue unchanged. */
  lemma ModOfMultiple(x: int, k: int, m: int)
    requires m > 0
    ensures (x + k * m) % m == x % m
  {
    var q, r := x / m, x % m;
    assert x == q * m + r;
    assert x + k * m == (q + k) * m + r;
    ModUnique(x + k * m, q + k, r, m);
  }

  /** Two numbers that differ by a multiple of `m` have the same residue. */
  lemma ModCongruent(x: int, y: int, k: int, m: int)
    requires m > 0 && x == y + k * m
    ensures x % m == y % m
  {
    ModOfMultiple(y, k, m);
  }

  /** One step of polynomial_hash: reducing the partial sum and the power
      before adding does not change the residue. */
  lemma HashStep(x: int, c: int, p: int, m: int)
    requires m > 0
    ensures (x % m + c * (p % m)) % m == (x + c * p) % m
  {
    var q1, q2 := x / m, p / m;
    assert x == q1 * m + x % m;
    assert p == q2 * m + p % m;
    assert c * p == c * (p % m) + (c * q2) * m;
    ModCongruent(x + c * p, x % m + c * (p % m), q1 + c * q2, m);
  }

  /** One step of the rolling update: the reduced hash, the reduced
      weight and the intermediate reduction give the same residue as the
      exact polynomial arithmetic. */
  lemma RollStep(x: int, c: int, p: int, b: int, d: int, m: int)
    requires m > 0
    ensures (((x % m - c * (p % m)) % m) * b + d) % m == ((x - c * p) * b + d) % m
  {
    var q1, q2 := x / m, p / m;
    assert x == q1 * m + x % m;
    assert p == q2 * m + p % m;
    assert c * p == c * (p % m) + (c * q2) * m;
    var y := x % m - c * (p % m);
    ModCongruent(x - c * p, y, q1 - c * q2, m);
    var q3 := y / m;
    assert y == q3 * m + y % m;
    assert (x - c * p) * b + d == (y % m) * b + d + ((q1 - c * q2 + q3) * b) * m;
    ModCongruent((x - c * p) * b + d, (y % m) * b + d, (q1 - c * q2 + q3) * b, m);
  }

  /** Sliding the window one position: drop the outgoing character's term
      (weight b^(|w| - 1)), multiply by the base and add the incoming one. */
  lemma WeightedSlide(data: string, i: nat, len: nat, b: int)
    requires 1 <= len && i + len < |data|
    ensures Weighted(data[i + 1..i + len + 1], b) ==
            (Weighted(data[i..i + len], b) - Ord(data[i]) * Pow(b, len - 1)) * b + Ord(data[i + len])
  {
    var w := data[i..i + len];
    assert w[1..] == data[i + 1..i + len];
    assert data[i + 1..i + len + 1] == w[1..] + [data[i + len]];
    WeightedAppend(w[1..], data[i + len], b);
  }

  /** The rolling update of rabin_karp_search: from the hash of the window
      at `i` and the reduced top weight, the two reduced steps give the
      hash of the window at `i + 1`. */
  lemma RollingUpdate(data: string, i: nat, len: nat, b: int, m: int, h: int, hm: int)
    requires 1 <= len && i + len < |data| && m > 0
    requires h == Weighted(data[i..i + len], b) % m && hm == Pow(b, len - 1) % m
    ensures ((h - Ord(data[i]) * hm) % m * b + Ord(data[i + len])) % m ==
            Weighted(data[i + 1..i + 1 + len], b) % m
  {
    WeightedSlide(data, i, len, b);
    RollStep(Weighted(data[i..i + len], b), Ord(data[i]), Pow(b, len - 1), b, Ord(data[i + len]), m);
    assert data[i + 1..i + 1 + len] == data[i + 1..i + len + 1];
  }

  /** polynomial_hash: accumulates ord(s[i]) * (b^(n - i - 1) mod m) and
      reduces after every step; the result is the hash polynomial modulo
      `m`, and 0 for the empty string. */
  method PolynomialHash(s: string, base: nat, modulus: nat) returns (h: int)
    requires modulus >= 1
    ensures 0 <= h < modulus
    ensures h == Weighted(s, base) % modulus
    ensures |s| == 0 ==> h == 0
  {
    var n := |s|;
    h := 0;
    assert s[0..] == s;
    for i := 0 to n
      invariant 0 <= h < modulus
      invariant h == (Weighted(s, base) - Weighted(s[i..], base)) % modulus
    {
      var powerOfBase := Pow(base, n - i - 1) % modulus;
      assert s[i..][1..] == s[i + 1..];
      HashStep(Weighted(s, base) - Weighted(s[i..], base), Ord(s[i]), Pow(base, n - i - 1), modulus);
      h := (h + Ord(s[i]) * powerOfBase) % modulus;
    }
    assert s[n..] == [];
  }

  /** rabin_karp_search with base 256 and modulus 101. At the top of
      iteration `i` the rolling hash equals the hash of `data[i..i + |pat|]`;
      a hit is returned only after the window equals the pattern, so a
      collision never yields a wrong index, and equal windows always hash
      alike, so no occurrence is passed over. */
  method RabinKarpSearch(data: string, pat: string) returns (r: int)
    requires |pat| >= 1
    ensures IsLeftmost(data, pat, r)
    ensures r == FirstOccurrence(data, pat)
  {
    var M := |pat|;
    var N := |data|;
    var base := 256;
    var modulus := 101;
    var patHash := PolynomialHash(pat, base, modulus);
    var sliceHash := PolynomialHash(data[..if M <= N then M else N], base, modulus);
    var hMultiplier := Pow(base, M - 1) % modulus;
    var i := 0;
    // no iteration when the pattern is longer than the data
    while i < N - M + 1
      invariant 0 <= i && (i == 0 || i <= N - M + 1)
      invariant i < N - M + 1 ==> sliceHash == Weighted(data[i..i + M], base) % modulus
      invariant forall s :: s < i ==> !MatchesAt(data, pat, s)
    {
      if patHash == sliceHash {
        if data[i..i + M] == pat {
          LeftmostIsUnique(data, pat, i);
          return i;
        }
      }
      assert !MatchesAt(data, pat, i);
      if i < N - M {
        RollingUpdate(data, i, M, base, modulus, sliceHash, hMultiplier);
        sliceHash := (sliceHash - Ord(data[i]) * hMultiplier) % modulus;
        sliceHash := (sliceHash * base + Ord(data[i + M])) % modulus;
        // the divisor is positive, so the residue is never negative
        assert sliceHash >= 0;
        if sliceHash < 0 {
          sliceHash := sliceHash + modulus;
        }
      }
      i := i + 1;
    }
    LeftmostIsUnique(data, pat, -1);
    return -1;
  }

  /** A collision under modulus 101: "ab" and "ju" hash alike (both 84)
      at the only window, yet the pattern does not occur, so the content
      check makes the search answer -1. */
  lemma CollisionScenario()
    ensures Weighted("ab", 256) % 101 == Weighted("ju", 256) % 101 == 84
    ensures FirstOccurrence("ab", "ju") == -1
  {
    assert "ab"[0..2][0] != "ju"[0];
  }
}
