/**
 * The prefix function of Knuth, Morris and Pratt (`prefix_function.py`):
 * entry `i` is the length of the longest proper prefix of `s[..i+1]` that is
 * also a suffix of it. `main_function` returns that border of the whole string.
 */
module PrefixFunction {
  /** `k` is the length of a proper border of the prefix `s[..n]`. */
  predicate IsBorder(s: string, n: nat, k: nat)
  {
    k < n <= |s| && s[..k] == s[n - k..n]
  }

  /** Reference definition: the longest proper border of `s[..n]`, found by trying `m`, `m - 1`, ... */
  function LongestBorderBelow(s: string, n: nat, m: nat): (k: nat)
    requires 0 < n <= |s| && m < n
    ensures k <= m && IsBorder(s, n, k)
    ensures forall j :: k < j <= m ==> !IsBorder(s, n, j)
    decreases m
  {
    if IsBorder(s, n, m) then m else LongestBorderBelow(s, n, m - 1)
  }

  function LongestBorder(s: string, n: nat): (k: nat)
    requires 0 < n <= |s|
    ensures IsBorder(s, n, k)
    ensures forall j :: k < j < n ==> !IsBorder(s, n, j)
  {
    LongestBorderBelow(s, n, n - 1)
  }

  /** A border of `s[..n+1]` of positive length is a border of `s[..n]` followed by the character `s[n]`. */
  lemma BorderShrink(s: string, n: nat, k: nat)
    requires IsBorder(s, n + 1, k) && k > 0
    ensures IsBorder(s, n, k - 1) && s[k - 1] == s[n]
  {
    assert s[..k - 1] == s[..k][..k - 1];
    assert s[n + 1 - k..n] == s[n + 1 - k..n + 1][..k - 1];
    assert s[k - 1] == s[..k][k - 1] && s[n] == s[n + 1 - k..n + 1][k - 1];
  }

  /** A border of `s[..n]` followed by a matching character is a border of `s[..n+1]`. */
  lemma BorderExtend(s: string, n: nat, b: nat)
    requires IsBorder(s, n, b) && n < |s| && s[b] == s[n]
    ensures IsBorder(s, n + 1, b + 1)
  {
    assert s[..b + 1] == s[..b] + [s[b]];
    assert s[n - b..n + 1] == s[n - b..n] + [s[n]];
  }

  /** Below a border `j` of `s[..n]`, the borders of `s[..n]` are exactly the borders of `s[..j]`. */
  lemma BorderOfBorder(s: string, n: nat, j: nat, b: nat)
    requires IsBorder(s, n, j) && b < j
    ensures IsBorder(s, n, b) <==> IsBorder(s, j, b)
  {
    assert s[j - b..j] == s[..j][j - b..j];
    assert s[n - b..n] == s[n - j..n][j - b..j];
  }

  /** The prefix function grows by at most one from one position to the next. */
  lemma LongestBorderStep(s: string, n: nat)
    requires 0 < n < |s|
    ensures LongestBorder(s, n + 1) <= LongestBorder(s, n) + 1
  {
    var k := LongestBorder(s, n + 1);
    if k > 0 {
      BorderShrink(s, n, k);
    }
  }

  /**
   * When the fall-back stops at a border `j` of `s[..i]` such that no longer
   * border is followed by `s[i]`, the longest border of `s[..i+1]` is `j + 1`
   * if `s[j]` matches `s[i]`, and otherwise (then `j` is 0) it is 0.
   */
  lemma FallBackDone(s: string, i: nat, j: nat)
    requires 0 < i < |s| && IsBorder(s, i, j) && (j == 0 || s[i] == s[j])
    requires forall b :: j < b < i && IsBorder(s, i, b) ==> s[b] != s[i]
    ensures LongestBorder(s, i + 1) == if s[i] == s[j] then j + 1 else 0
  {
    var j' := if s[i] == s[j] then j + 1 else 0;
    if s[i] == s[j] {
      BorderExtend(s, i, j);
    }
    var n1 := i + 1;
    forall m | j' < m < n1
      ensures !IsBorder(s, n1, m)
    {
      if IsBorder(s, i + 1, m) {
        BorderShrink(s, i, m);
      }
    }
    var k := LongestBorder(s, i + 1);
    assert !(j' < k) && !(k < j');
  }

  /**
   * One step of the outer loop of `prefix_function`: from the entries before
   * `i`, the inner loop falls back through the borders of the current
   * border until the next character matches, and gives entry `i`.
   */
  method NextEntry(s: string, a: array<nat>, i: nat) returns (j: nat)
    requires 0 < i < |s| && i <= a.Length
    requires forall k :: 0 <= k < i ==> a[k] == LongestBorder(s, k + 1)
    ensures j == LongestBorder(s, i + 1)
  {
    j := a[i - 1];
    while j > 0 && s[i] != s[j]
      invariant IsBorder(s, i, j)
      invariant forall b :: j < b < i && IsBorder(s, i, b) ==> s[b] != s[i]
      decreases j
    {
      var j' := a[j - 1];
      forall b | j' < b < i && IsBorder(s, i, b)
        ensures s[b] != s[i]
      {
        if b < j {
          BorderOfBorder(s, i, j, b);
        }
      }
      BorderOfBorder(s, i, j, j');
      j := j';
    }
    FallBackDone(s, i, j);
    if s[i] == s[j] {
      j := j + 1;
    }
  }

  /**
   * `prefix_function`: fills `pi` left to right, each entry the longest
   * proper border of the prefix ending there.
   */
  method ComputePrefixFunction(s: string) returns (pi: seq<nat>)
    ensures |pi| == |s|
    ensures |s| > 0 ==> pi[0] == 0
    ensures forall i :: 0 <= i < |s| ==> pi[i] <= i && IsBorder(s, i + 1, pi[i])
    ensures forall n, m :: 0 < n <= |s| && pi[n - 1] < m < n ==> !IsBorder(s, n, m)
    ensures forall i :: 0 < i < |s| ==> pi[i] <= pi[i - 1] + 1
  {
    var n := |s|;
    var a := new nat[n](_ => 0);
    var i: nat := 1;
    while i < n
      invariant 1 <= i || n == 0
      invariant n > 0 ==> i <= n
      invariant forall k :: 0 <= k < i && k < n ==> a[k] == LongestBorder(s, k + 1)
    {
      var j := NextEntry(s, a, i);
      a[i] := j;
      i := i + 1;
    }
    pi := a[..];
    forall i | 0 < i < n
      ensures pi[i] <= pi[i - 1] + 1
    {
      LongestBorderStep(s, i);
    }
  }

  /** The longest proper prefix of `s` that is also a suffix of `s`; empty for the empty string. */
  ghost predicate IsLongestProperBorder(s: string, r: string)
  {
    if |s| == 0 then r == ""
    else IsBorder(s, |s|, |r|) && r == s[..|r|]
         && forall m :: |r| < m < |s| ==> !IsBorder(s, |s|, m)
  }

  /** `main_function`: the last entry of the prefix function gives the length of the answer. */
  method LongestPrefixSuffix(s: string) returns (r: string)
    ensures IsLongestProperBorder(s, r)
    ensures |s| > 0 ==> |r| < |s| && r == s[..|r|] && r == s[|s| - |r|..]
  {
    if |s| == 0 {
      return "";
    }
    var pi := ComputePrefixFunction(s);
    var longest := if |pi| > 0 then pi[|pi| - 1] else 0;
    r := s[..longest];
  }

  /** Only one string satisfies the specification, so it determines the result. */
  lemma LongestProperBorderUnique(s: string, r1: string, r2: string)
    requires IsLongestProperBorder(s, r1) && IsLongestProperBorder(s, r2)
    ensures r1 == r2
  {
    if |s| > 0 {
      assert !(|r1| < |r2|) && !(|r2| < |r1|);
    }
  }

  /** The three example strings of the source file and their answers. */
  lemma Examples()
    ensures IsLongestProperBorder("motomoto", "moto")
    ensures IsLongestProperBorder("jojo", "jo")
    ensures IsLongestProperBorder("gibbsgibbon", "")
  {
    var s1 := "motomoto";
    assert s1[..4] == "moto" == s1[4..8];
    assert s1[..5] != s1[3..8] by { assert s1[..5][0] != s1[3..8][0]; }
    assert s1[..6] != s1[2..8] by { assert s1[..6][0] != s1[2..8][0]; }
    assert s1[..7] != s1[1..8] by { assert s1[..7][0] != s1[1..8][0]; }
    var s2 := "jojo";
    assert s2[..2] == "jo" == s2[2..4];
    assert s2[..3] != s2[1..4] by { assert s2[..3][0] != s2[1..4][0]; }
    var s3 := "gibbsgibbon";
    forall m | 0 < m < 11
      ensures !IsBorder(s3, 11, m)
    {
      assert s3[..m][m - 1] != s3[11 - m..11][m - 1] || s3[..m][0] != s3[11 - m..11][0];
    }
  }
}
