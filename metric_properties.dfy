/** What the two shipped metrics promise: Hamming distance counts differing
    positions and signals strings of different lengths with the `ui` maximum;
    edit distance is zero exactly on equal strings, symmetric, and equal to the
    other length when one string is empty. */
module MetricProperties {
  import opened Metrics

  /** The positions below n at which `s` and `t` differ. */
  function MismatchPositions(s: string, t: string, n: nat): set<nat>
    requires n <= |s| && n <= |t|
  {
    set i: nat | i < n && s[i] != t[i]
  }

  /** The counting recursion agrees with the set of differing positions. */
  lemma {:induction false} MismatchesCountsPositions(s: string, t: string, n: nat)
    requires n <= |s| && n <= |t|
    ensures Mismatches(s, t, n) == |MismatchPositions(s, t, n)|
  {
    if n > 0 {
      MismatchesCountsPositions(s, t, n - 1);
      var before := MismatchPositions(s, t, n - 1);
      if s[n - 1] != t[n - 1] {
        assert MismatchPositions(s, t, n) == before + {n - 1};
      } else {
        assert MismatchPositions(s, t, n) == before;
      }
    } else {
      assert MismatchPositions(s, t, n) == {};
    }
  }

  /** Strings of different lengths (both representable in `ui`) get the sentinel. */
  lemma HammingDifferentLengths(s: string, t: string)
    requires |s| < U32_LIMIT && |t| < U32_LIMIT && |s| != |t|
    ensures Hamming(s, t) == U32_MAX
  {
  }

  /** Equal-length strings get the number of positions where they differ, which
      lies between 0 and the length; two empty strings are at distance 0. */
  lemma HammingEqualLengths(s: string, t: string)
    requires |s| == |t| < U32_LIMIT
    ensures Hamming(s, t) == |MismatchPositions(s, t, |s|)|
    ensures Hamming(s, t) <= |s|
    ensures |s| == 0 ==> Hamming(s, t) == 0
  {
    MismatchesCountsPositions(s, t, |s|);
  }

  /** No mismatch among the first n positions exactly when those prefixes agree. */
  lemma {:induction false} MismatchesZero(s: string, t: string, n: nat)
    requires n <= |s| && n <= |t|
    ensures Mismatches(s, t, n) == 0 <==> s[..n] == t[..n]
  {
    if n > 0 {
      MismatchesZero(s, t, n - 1);
      assert s[..n] == s[..n - 1] + [s[n - 1]] && t[..n] == t[..n - 1] + [t[n - 1]];
      if s[..n] == t[..n] {
        assert s[..n][..n - 1] == s[..n - 1] && t[..n][..n - 1] == t[..n - 1];
      }
    }
  }

  lemma {:induction false} MismatchesSymmetric(s: string, t: string, n: nat)
    requires n <= |s| && n <= |t|
    ensures Mismatches(s, t, n) == Mismatches(t, s, n)
  {
    if n > 0 {
      MismatchesSymmetric(s, t, n - 1);
    }
  }

  lemma {:induction false} MismatchesTriangle(a: string, b: string, c: string, n: nat)
    requires n <= |a| && n <= |b| && n <= |c|
    ensures Mismatches(a, c, n) <= Mismatches(a, b, n) + Mismatches(b, c, n)
  {
    if n > 0 {
      MismatchesTriangle(a, b, c, n - 1);
    }
  }

  /** On strings of one common length Hamming distance is a metric. */
  lemma HammingIsMetricOnOneLength(a: string, b: string, c: string)
    requires |a| == |b| == |c| < U32_LIMIT
    ensures Hamming(a, b) == 0 <==> a == b
    ensures Hamming(a, b) == Hamming(b, a)
    ensures Hamming(a, c) <= Hamming(a, b) + Hamming(b, c)
  {
    MismatchesZero(a, b, |a|);
    assert a[..|a|] == a && b[..|b|] == b;
    MismatchesSymmetric(a, b, |a|);
    MismatchesTriangle(a, b, c, |a|);
  }

  /** The first i characters of a string are at edit distance 0 from themselves. */
  lemma {:induction false} LevSelf(s: string, i: nat)
    requires i <= |s|
    ensures Lev(s, s, i, i) == 0
  {
    if i > 0 {
      LevSelf(s, i - 1);
      LevBounds(s, s, i, i - 1);
      LevBounds(s, s, i - 1, i);
    }
  }

  /** Edit distance 0 means the two prefixes are equal. */
  lemma {:induction false} LevZeroOnlyOnEqual(s: string, t: string, i: nat, j: nat)
    requires i <= |s| && j <= |t|
    requires Lev(s, t, i, j) == 0
    ensures i == j && s[..i] == t[..j]
    decreases i + j
  {
    if i > 0 && j > 0 {
      var cost := if s[i - 1] == t[j - 1] then 0 else 1;
      assert Lev(s, t, i, j) == Min3(Lev(s, t, i, j - 1) + 1, Lev(s, t, i - 1, j) + 1, Lev(s, t, i - 1, j - 1) + cost);
      assert Lev(s, t, i - 1, j - 1) == 0 && cost == 0;
      LevZeroOnlyOnEqual(s, t, i - 1, j - 1);
      assert s[..i] == s[..i - 1] + [s[i - 1]] && t[..j] == t[..j - 1] + [t[j - 1]];
    }
  }

  lemma {:induction false} LevSymmetric(s: string, t: string, i: nat, j: nat)
    requires i <= |s| && j <= |t|
    ensures Lev(s, t, i, j) == Lev(t, s, j, i)
    decreases i + j
  {
    if i > 0 && j > 0 {
      LevSymmetric(s, t, i, j - 1);
      LevSymmetric(s, t, i - 1, j);
      LevSymmetric(s, t, i - 1, j - 1);
    }
  }

  /** Each of the three steps of the recurrence bounds it from above. */
  lemma LevStepBounds(s: string, t: string, i: nat, j: nat)
    requires 0 < i <= |s| && 0 < j <= |t|
    ensures Lev(s, t, i, j) <= Lev(s, t, i, j - 1) + 1
    ensures Lev(s, t, i, j) <= Lev(s, t, i - 1, j) + 1
    ensures Lev(s, t, i, j) <= Lev(s, t, i - 1, j - 1) + (if s[i - 1] == t[j - 1] then 0 else 1)
  {
  }

  /** The recurrence takes the value of one of its three steps. */
  lemma LevStepTaken(s: string, t: string, i: nat, j: nat)
    requires 0 < i <= |s| && 0 < j <= |t|
    ensures Lev(s, t, i, j) == Lev(s, t, i, j - 1) + 1
      || Lev(s, t, i, j) == Lev(s, t, i - 1, j) + 1
      || Lev(s, t, i, j) == Lev(s, t, i - 1, j - 1) + (if s[i - 1] == t[j - 1] then 0 else 1)
  {
  }

  /** The recurrence satisfies the triangle inequality: the last steps of an
      edit of a into b and of b into c combine into a step of an edit of a
      into c that costs no more (one lemma below per pair of last steps). */
  lemma {:induction false} LevTriangle(a: string, b: string, c: string, i: nat, j: nat, k: nat)
    requires i <= |a| && j <= |b| && k <= |c|
    ensures Lev(a, c, i, k) <= Lev(a, b, i, j) + Lev(b, c, j, k)
    decreases i + j + k, 1
  {
    if i == 0 {
      LevAtLeastDifference(b, c, j, k);
    } else if k == 0 {
      LevAtLeastDifference(a, b, i, j);
    } else if j == 0 {
      LevAtMostLonger(a, c, i, k);
    } else {
      LevStepTaken(a, b, i, j);
      LevStepTaken(b, c, j, k);
      if Lev(a, b, i, j) == Lev(a, b, i - 1, j) + 1 {
        TriangleDeleteFromA(a, b, c, i, j, k);
      } else if Lev(b, c, j, k) == Lev(b, c, j, k - 1) + 1 {
        TriangleInsertIntoC(a, b, c, i, j, k);
      } else if Lev(a, b, i, j) == Lev(a, b, i, j - 1) + 1 {
        if Lev(b, c, j, k) == Lev(b, c, j - 1, k) + 1 {
          TriangleInsertDelete(a, b, c, i, j, k);
        } else {
          TriangleInsertMatch(a, b, c, i, j, k);
        }
      } else if Lev(b, c, j, k) == Lev(b, c, j - 1, k) + 1 {
        TriangleMatchDelete(a, b, c, i, j, k);
      } else {
        TriangleMatchMatch(a, b, c, i, j, k);
      }
    }
  }

  /** a into b ends by deleting a's last character. */
  lemma {:induction false} TriangleDeleteFromA(a: string, b: string, c: string, i: nat, j: nat, k: nat)
    requires 0 < i <= |a| && 0 < j <= |b| && 0 < k <= |c|
    requires Lev(a, b, i, j) == Lev(a, b, i - 1, j) + 1
    ensures Lev(a, c, i, k) <= Lev(a, b, i, j) + Lev(b, c, j, k)
    decreases i + j + k, 0
  {
    LevStepBounds(a, c, i, k);
    LevTriangle(a, b, c, i - 1, j, k);
  }

  /** b into c ends by inserting c's last character. */
  lemma {:induction false} TriangleInsertIntoC(a: string, b: string, c: string, i: nat, j: nat, k: nat)
    requires 0 < i <= |a| && 0 < j <= |b| && 0 < k <= |c|
    requires Lev(b, c, j, k) == Lev(b, c, j, k - 1) + 1
    ensures Lev(a, c, i, k) <= Lev(a, b, i, j) + Lev(b, c, j, k)
    decreases i + j + k, 0
  {
    LevStepBounds(a, c, i, k);
    LevTriangle(a, b, c, i, j, k - 1);
  }

  /** a into b inserts b's last character, which b into c deletes again. */
  lemma {:induction false} TriangleInsertDelete(a: string, b: string, c: string, i: nat, j: nat, k: nat)
    requires 0 < i <= |a| && 0 < j <= |b| && 0 < k <= |c|
    requires Lev(a, b, i, j) == Lev(a, b, i, j - 1) + 1
    requires Lev(b, c, j, k) == Lev(b, c, j - 1, k) + 1
    ensures Lev(a, c, i, k) <= Lev(a, b, i, j) + Lev(b, c, j, k)
    decreases i + j + k, 0
  {
    LevTriangle(a, b, c, i, j - 1, k);
  }

  /** a into b inserts b's last character, which b into c matches with c's. */
  lemma {:induction false} TriangleInsertMatch(a: string, b: string, c: string, i: nat, j: nat, k: nat)
    requires 0 < i <= |a| && 0 < j <= |b| && 0 < k <= |c|
    requires Lev(a, b, i, j) == Lev(a, b, i, j - 1) + 1
    requires Lev(b, c, j, k) == Lev(b, c, j - 1, k - 1) + (if b[j - 1] == c[k - 1] then 0 else 1)
    ensures Lev(a, c, i, k) <= Lev(a, b, i, j) + Lev(b, c, j, k)
    decreases i + j + k, 0
  {
    LevStepBounds(a, c, i, k);
    LevTriangle(a, b, c, i, j - 1, k - 1);
  }

  /** a into b matches the last characters, and b into c deletes b's. */
  lemma {:induction false} TriangleMatchDelete(a: string, b: string, c: string, i: nat, j: nat, k: nat)
    requires 0 < i <= |a| && 0 < j <= |b| && 0 < k <= |c|
    requires Lev(a, b, i, j) == Lev(a, b, i - 1, j - 1) + (if a[i - 1] == b[j - 1] then 0 else 1)
    requires Lev(b, c, j, k) == Lev(b, c, j - 1, k) + 1
    ensures Lev(a, c, i, k) <= Lev(a, b, i, j) + Lev(b, c, j, k)
    decreases i + j + k, 0
  {
    LevStepBounds(a, c, i, k);
    LevTriangle(a, b, c, i - 1, j - 1, k);
  }

  /** Both edits match (or substitute) their last characters. */
  lemma {:induction false} TriangleMatchMatch(a: string, b: string, c: string, i: nat, j: nat, k: nat)
    requires 0 < i <= |a| && 0 < j <= |b| && 0 < k <= |c|
    requires Lev(a, b, i, j) == Lev(a, b, i - 1, j - 1) + (if a[i - 1] == b[j - 1] then 0 else 1)
    requires Lev(b, c, j, k) == Lev(b, c, j - 1, k - 1) + (if b[j - 1] == c[k - 1] then 0 else 1)
    ensures Lev(a, c, i, k) <= Lev(a, b, i, j) + Lev(b, c, j, k)
    decreases i + j + k, 0
  {
    LevStepBounds(a, c, i, k);
    LevTriangle(a, b, c, i - 1, j - 1, k - 1);
  }

  /** Edit distance satisfies the triangle inequality. */
  lemma EditDistanceTriangle(a: string, b: string, c: string)
    requires |a| < U32_LIMIT && |b| < U32_LIMIT && |c| < U32_LIMIT
    ensures EditDistance(a, c) <= EditDistance(a, b) + EditDistance(b, c)
  {
    LevTriangle(a, b, c, |a|, |b|, |c|);
  }

  /** Edit distance is 0 exactly on equal strings, symmetric, and the length of
      the other string when one of them is empty. */
  lemma EditDistanceProperties(s: string, t: string)
    requires |s| < U32_LIMIT && |t| < U32_LIMIT
    ensures EditDistance(s, t) == 0 <==> s == t
    ensures EditDistance(s, t) == EditDistance(t, s)
    ensures |t| == 0 ==> EditDistance(s, t) == |s|
    ensures |s| == 0 ==> EditDistance(s, t) == |t|
    ensures EditDistance(s, t) <= Max(|s|, |t|)
  {
    if s == t {
      LevSelf(s, |s|);
    }
    if Lev(s, t, |s|, |t|) == 0 {
      LevZeroOnlyOnEqual(s, t, |s|, |t|);
      assert s[..|s|] == s && t[..|t|] == t;
    }
    LevSymmetric(s, t, |s|, |t|);
    LevBounds(s, t, |s|, |t|);
  }
}
