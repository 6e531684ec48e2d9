/** Levenshtein distance: the minimal-edit definition, its properties, and the
    dynamic-programming table `levenshteinDistance` fills in. */
module Distance {
  import opened Text

  /** `Math.min` of three numbers. */
  function Min3(a: int, b: int, c: int): (r: int)
    ensures r <= a && r <= b && r <= c
    ensures r == a || r == b || r == c
  {
    if a <= b && a <= c then a else if b <= c then b else c
  }

  lemma Min3Swap(a: int, b: int, c: int)
    ensures Min3(a, b, c) == Min3(b, a, c)
  {
  }

  /** The greater of two numbers. */
  function Max(a: int, b: int): (r: int)
    ensures r >= a && r >= b
    ensures r == a || r == b
  {
    if a < b then b else a
  }

  /** The least number of single-character insertions, deletions and
      substitutions that turn the first `i` characters of `a` into the first `j`
      of `b`, by the usual recursion on the last characters: delete the last of
      `a`, insert the last of `b`, or pair the two up (free when they are equal). */
  function PrefixDistance(a: string, b: string, i: nat, j: nat): (d: nat)
    requires i <= |a| && j <= |b|
    decreases i + j
  {
    if i == 0 then j
    else if j == 0 then i
    else
      Min3(PrefixDistance(a, b, i - 1, j) + 1,
           PrefixDistance(a, b, i, j - 1) + 1,
           PrefixDistance(a, b, i - 1, j - 1) + (if a[i - 1] == b[j - 1] then 0 else 1))
  }

  /** The edit distance between two whole strings. */
  function EditDistance(a: string, b: string): (d: nat) {
    PrefixDistance(a, b, |a|, |b|)
  }

  /** Dropping the last character of `b` changes the distance by at most one. */
  lemma {:induction false} PrefixDistanceDropRight(a: string, b: string, i: nat, j: nat)
    requires i <= |a| && 0 < j <= |b|
    ensures PrefixDistance(a, b, i, j - 1) <= PrefixDistance(a, b, i, j) + 1
    decreases i + j
  {
    if i > 0 && PrefixDistance(a, b, i, j) == PrefixDistance(a, b, i - 1, j) + 1 {
      PrefixDistanceDropRight(a, b, i - 1, j);
    }
  }

  lemma {:induction false} PrefixDistanceSymmetric(a: string, b: string, i: nat, j: nat)
    requires i <= |a| && j <= |b|
    ensures PrefixDistance(a, b, i, j) == PrefixDistance(b, a, j, i)
    decreases i + j
  {
    if i > 0 && j > 0 {
      PrefixDistanceSymmetric(a, b, i - 1, j);
      PrefixDistanceSymmetric(a, b, i, j - 1);
      PrefixDistanceSymmetric(a, b, i - 1, j - 1);
      var x, y, z := PrefixDistance(a, b, i - 1, j) + 1, PrefixDistance(a, b, i, j - 1) + 1,
        PrefixDistance(a, b, i - 1, j - 1) + (if a[i - 1] == b[j - 1] then 0 else 1);
      var y', x', z' := PrefixDistance(b, a, j - 1, i) + 1, PrefixDistance(b, a, j, i - 1) + 1,
        PrefixDistance(b, a, j - 1, i - 1) + (if b[j - 1] == a[i - 1] then 0 else 1);
      assert PrefixDistance(a, b, i, j) == Min3(x, y, z);
      assert PrefixDistance(b, a, j, i) == Min3(y', x', z');
      assert x' == x && y' == y && z' == z;
      Min3Swap(x, y, z);
    }
  }

  /** Dropping the last character of `a` changes the distance by at most one. */
  lemma PrefixDistanceDropLeft(a: string, b: string, i: nat, j: nat)
    requires 0 < i <= |a| && j <= |b|
    ensures PrefixDistance(a, b, i - 1, j) <= PrefixDistance(a, b, i, j) + 1
  {
    PrefixDistanceDropRight(b, a, j, i);
    PrefixDistanceSymmetric(a, b, i, j);
    PrefixDistanceSymmetric(a, b, i - 1, j);
  }

  /** The shortcut `levenshteinDistance` takes when the last characters agree:
      pairing them up is then always a cheapest choice. */
  lemma PrefixDistanceMatch(a: string, b: string, i: nat, j: nat)
    requires 0 < i <= |a| && 0 < j <= |b| && a[i - 1] == b[j - 1]
    ensures PrefixDistance(a, b, i, j) == PrefixDistance(a, b, i - 1, j - 1)
  {
    PrefixDistanceDropRight(a, b, i - 1, j);
    PrefixDistanceDropLeft(a, b, i, j - 1);
  }

  /** The distance is zero exactly when the two prefixes are equal. */
  lemma {:induction false} PrefixDistanceZero(a: string, b: string, i: nat, j: nat)
    requires i <= |a| && j <= |b|
    ensures PrefixDistance(a, b, i, j) == 0 <==> a[..i] == b[..j]
    decreases i + j
  {
    if i > 0 && j > 0 {
      PrefixDistanceZero(a, b, i - 1, j - 1);
      assert a[..i] == a[..i - 1] + [a[i - 1]] && b[..j] == b[..j - 1] + [b[j - 1]];
      if a[..i] == b[..j] {
        assert a[..i - 1] == a[..i][..i - 1];
      }
    }
  }

  /** The distance is at least the difference of the lengths. */
  lemma {:induction false} PrefixDistanceLowerBound(a: string, b: string, i: nat, j: nat)
    requires i <= |a| && j <= |b|
    ensures i - j <= PrefixDistance(a, b, i, j) && j - i <= PrefixDistance(a, b, i, j)
    decreases i + j
  {
    if i > 0 && j > 0 {
      PrefixDistanceLowerBound(a, b, i - 1, j);
      PrefixDistanceLowerBound(a, b, i, j - 1);
      PrefixDistanceLowerBound(a, b, i - 1, j - 1);
    }
  }

  /** The distance is at most the longer length. */
  lemma {:induction false} PrefixDistanceUpperBound(a: string, b: string, i: nat, j: nat)
    requires i <= |a| && j <= |b|
    ensures PrefixDistance(a, b, i, j) <= Max(i, j)
    decreases i + j
  {
    if i > 0 && j > 0 {
      PrefixDistanceUpperBound(a, b, i - 1, j - 1);
    }
  }

  lemma EditDistanceBounds(a: string, b: string)
    ensures |a| - |b| <= EditDistance(a, b) && |b| - |a| <= EditDistance(a, b)
    ensures EditDistance(a, b) <= Max(|a|, |b|)
    ensures a == [] ==> EditDistance(a, b) == |b|
    ensures b == [] ==> EditDistance(a, b) == |a|
  {
    PrefixDistanceLowerBound(a, b, |a|, |b|);
    PrefixDistanceUpperBound(a, b, |a|, |b|);
  }

  lemma EditDistanceSymmetric(a: string, b: string)
    ensures EditDistance(a, b) == EditDistance(b, a)
  {
    PrefixDistanceSymmetric(a, b, |a|, |b|);
  }

  lemma EditDistanceZero(a: string, b: string)
    ensures EditDistance(a, b) == 0 <==> a == b
  {
    PrefixDistanceZero(a, b, |a|, |b|);
    assert a[..|a|] == a && b[..|b|] == b;
  }

  /** The number of positions below `i` where `a` and `b` differ. */
  function Mismatches(a: string, b: string, i: nat): (m: nat)
    requires i <= |a| && i <= |b|
    ensures m <= i
  {
    if i == 0 then 0
    else Mismatches(a, b, i - 1) + (if a[i - 1] == b[i - 1] then 0 else 1)
  }

  /** Substituting characters one for one costs at most one edit each. */
  lemma {:induction false} PrefixDistanceMismatches(a: string, b: string, i: nat)
    requires i <= |a| && i <= |b|
    ensures PrefixDistance(a, b, i, i) <= Mismatches(a, b, i)
  {
    if i > 0 {
      PrefixDistanceMismatches(a, b, i - 1);
    }
  }

  lemma EditDistanceMismatches(a: string, b: string)
    requires |a| == |b|
    ensures EditDistance(a, b) <= Mismatches(a, b, |a|)
  {
    PrefixDistanceMismatches(a, b, |a|);
  }

  /** What `levenshteinDistance(str1, str2)` returns: the edit distance of the
      two strings after lower-casing. */
  function Levenshtein(str1: string, str2: string): (d: nat) {
    EditDistance(LowerStr(str1), LowerStr(str2))
  }

  lemma LevenshteinSymmetric(str1: string, str2: string)
    ensures Levenshtein(str1, str2) == Levenshtein(str2, str1)
  {
    EditDistanceSymmetric(LowerStr(str1), LowerStr(str2));
  }

  /** At least the difference of the lengths and at most the longer length. */
  lemma LevenshteinBounds(str1: string, str2: string)
    ensures |str1| - |str2| <= Levenshtein(str1, str2) && |str2| - |str1| <= Levenshtein(str1, str2)
    ensures Levenshtein(str1, str2) <= Max(|str1|, |str2|)
  {
    EditDistanceBounds(LowerStr(str1), LowerStr(str2));
  }

  lemma LevenshteinZero(str1: string, str2: string)
    ensures Levenshtein(str1, str2) == 0 <==> LowerStr(str1) == LowerStr(str2)
  {
    EditDistanceZero(LowerStr(str1), LowerStr(str2));
  }

  /** Row `i` of the table of `levenshteinDistance` (the inner loop), filled
      from row `i - 1` and the first cell of row `i`. */
  method FillRow(dp: array2<nat>, s1: string, s2: string, i: nat)
    requires dp.Length0 == |s1| + 1 && dp.Length1 == |s2| + 1 && 0 < i <= |s1|
    requires forall i', j' {:trigger dp[i', j']} | 0 <= i' < i && 0 <= j' <= |s2| ::
               dp[i', j'] == PrefixDistance(s1, s2, i', j')
    requires dp[i, 0] == i
    modifies dp
    ensures forall j' {:trigger dp[i, j']} | 0 <= j' <= |s2| ::
              dp[i, j'] == PrefixDistance(s1, s2, i, j')
    ensures forall i', j' {:trigger dp[i', j']} | 0 <= i' <= |s1| && 0 <= j' <= |s2| && i' != i ::
              dp[i', j'] == old(dp[i', j'])
  {
    for j := 1 to |s2| + 1
      invariant forall j' {:trigger dp[i, j']} | 0 <= j' < j ::
                  dp[i, j'] == PrefixDistance(s1, s2, i, j')
      invariant forall i', j' {:trigger dp[i', j']} | 0 <= i' <= |s1| && 0 <= j' <= |s2| && i' != i ::
                  dp[i', j'] == old(dp[i', j'])
    {
      if s1[i - 1] == s2[j - 1] {
        PrefixDistanceMatch(s1, s2, i, j);
        dp[i, j] := dp[i - 1, j - 1];
      } else {
        dp[i, j] := Min3(dp[i - 1, j] + 1, dp[i, j - 1] + 1, dp[i - 1, j - 1] + 1);
      }
    }
  }

  /** `levenshteinDistance`: `dp[i, j]` ends up as the distance between the
      first `i` characters of `s1` and the first `j` of `s2`. */
  method LevenshteinDistance(str1: string, str2: string) returns (distance: nat)
    ensures distance == Levenshtein(str1, str2)
    ensures str1 == [] ==> distance == |str2|
    ensures str2 == [] ==> distance == |str1|
  {
    var s1 := LowerStr(str1);
    var s2 := LowerStr(str2);
    var m := |s1|;
    var n := |s2|;
    var dp := new nat[m + 1, n + 1]((i, j) => 0);
    for i := 0 to m + 1
      invariant forall i' | 0 <= i' < i :: dp[i', 0] == i'
    {
      dp[i, 0] := i;
    }
    for j := 0 to n + 1
      invariant forall i' | 0 <= i' <= m :: dp[i', 0] == i'
      invariant forall j' | 0 <= j' < j :: dp[0, j'] == j'
    {
      dp[0, j] := j;
    }
    for i := 1 to m + 1
      invariant forall i', j' {:trigger dp[i', j']} | 0 <= i' < i && 0 <= j' <= n ::
                  dp[i', j'] == PrefixDistance(s1, s2, i', j')
      invariant forall i' | i <= i' <= m :: dp[i', 0] == i'
    {
      FillRow(dp, s1, s2, i);
    }
    distance := dp[m, n];
  }
}
