/** The edit distance of `levenshtein` (cloudflare-worker/index.js:132-146): the
    recursive definition, its properties, and the table-filling method of the source. */
module EditDistance {

  function Min3(x: nat, y: nat, z: nat): (r: nat)
    ensures r <= x && r <= y && r <= z
    ensures r == x || r == y || r == z
  {
    if x <= y && x <= z then x else if y <= z then y else z
  }

  /** The edit distance between the first `i` characters of `a` and the first `j`
      characters of `b`: insertions, deletions and substitutions cost one each, keeping
      a matching character costs nothing. */
  function Dist(a: string, b: string, i: nat, j: nat): nat
    requires i <= |a| && j <= |b|
    decreases i + j
  {
    if i == 0 then j
    else if j == 0 then i
    else Min3(Dist(a, b, i - 1, j) + 1,
              Dist(a, b, i, j - 1) + 1,
              Dist(a, b, i - 1, j - 1) + (if a[i - 1] == b[j - 1] then 0 else 1))
  }

  function Distance(a: string, b: string): nat {
    Dist(a, b, |a|, |b|)
  }

  function Max(x: nat, y: nat): nat {
    if x >= y then x else y
  }

  /** The distance is at least the difference of the lengths and at most the longer
      length. */
  lemma {:induction false} DistBounds(a: string, b: string, i: nat, j: nat)
    requires i <= |a| && j <= |b|
    ensures i - j <= Dist(a, b, i, j) && j - i <= Dist(a, b, i, j)
    ensures Dist(a, b, i, j) <= Max(i, j)
    decreases i + j
  {
    if i > 0 && j > 0 {
      DistBounds(a, b, i - 1, j);
      DistBounds(a, b, i, j - 1);
      DistBounds(a, b, i - 1, j - 1);
    }
  }

  /** Edit distance is symmetric. */
  lemma {:induction false} DistSymmetric(a: string, b: string, i: nat, j: nat)
    requires i <= |a| && j <= |b|
    ensures Dist(a, b, i, j) == Dist(b, a, j, i)
    decreases i + j
  {
    if i > 0 && j > 0 {
      DistSymmetric(a, b, i - 1, j);
      DistSymmetric(a, b, i, j - 1);
      DistSymmetric(a, b, i - 1, j - 1);
    }
  }

  /** Dropping the last character of `b` changes the distance by at most one. */
  lemma {:induction false} DropLastOfB(a: string, b: string, i: nat, j: nat)
    requires i <= |a| && 1 <= j <= |b|
    ensures Dist(a, b, i, j - 1) <= Dist(a, b, i, j) + 1
    decreases i
  {
    if i > 0 {
      if j == 1 {
        DistBounds(a, b, i, 1);
      } else {
        DropLastOfB(a, b, i - 1, j);
      }
    }
  }

  /** Dropping the last character of `a` changes the distance by at most one. */
  lemma {:induction false} DropLastOfA(a: string, b: string, i: nat, j: nat)
    requires 1 <= i <= |a| && j <= |b|
    ensures Dist(a, b, i - 1, j) <= Dist(a, b, i, j) + 1
  {
    DistSymmetric(a, b, i - 1, j);
    DistSymmetric(a, b, i, j);
    DropLastOfB(b, a, j, i);
  }

  /** When the last characters match, the distance is that of the two shorter prefixes:
      the shortcut `dp[i][j] = dp[i - 1][j - 1]` of the source. */
  lemma {:induction false} MatchShortcut(a: string, b: string, i: nat, j: nat)
    requires 1 <= i <= |a| && 1 <= j <= |b| && a[i - 1] == b[j - 1]
    ensures Dist(a, b, i, j) == Dist(a, b, i - 1, j - 1)
  {
    DropLastOfB(a, b, i - 1, j);
    DropLastOfA(a, b, i, j - 1);
  }

  /** The distance is zero exactly when the two prefixes are equal. */
  lemma {:induction false} DistZero(a: string, b: string, i: nat, j: nat)
    requires i <= |a| && j <= |b|
    ensures Dist(a, b, i, j) == 0 <==> i == j && a[..i] == b[..j]
    decreases i + j
  {
    DistBounds(a, b, i, j);
    if i > 0 && j > 0 {
      DistZero(a, b, i - 1, j - 1);
      assert a[..i] == a[..i - 1] + [a[i - 1]];
      assert b[..j] == b[..j - 1] + [b[j - 1]];
      if a[..i] == b[..j] && i == j {
        assert a[..i - 1] == b[..j - 1] && a[i - 1] == b[j - 1] by {
          assert a[..i - 1] == a[..i][..i - 1] && b[..j - 1] == b[..j][..j - 1];
          assert a[i - 1] == a[..i][i - 1] && b[j - 1] == b[..j][j - 1];
        }
      }
    }
  }

  /** `d(a, a) = 0`, `d(a, "") = |a|`, `d(a, b) = 0` only for `a = b`, and
      `||a| - |b|| <= d(a, b) <= max(|a|, |b|)`. */
  lemma {:induction false} DistanceProperties(a: string, b: string)
    ensures Distance(a, a) == 0
    ensures Distance(a, "") == |a| && Distance("", b) == |b|
    ensures Distance(a, b) == 0 <==> a == b
    ensures |a| - |b| <= Distance(a, b) && |b| - |a| <= Distance(a, b)
    ensures Distance(a, b) <= Max(|a|, |b|)
    ensures Distance(a, b) == Distance(b, a)
  {
    DistZero(a, a, |a|, |a|);
    DistZero(a, b, |a|, |b|);
    assert a[..|a|] == a && b[..|b|] == b;
    DistBounds(a, b, |a|, |b|);
    DistSymmetric(a, b, |a|, |b|);
  }

  /** One step of the table: the source's formula for `dp[i][j]` from its three
      neighbours gives the distance. */
  lemma {:induction false} CellValue(a: string, b: string, i: nat, j: nat, up: int, left: int, diag: int)
    requires 1 <= i <= |a| && 1 <= j <= |b|
    requires up == Dist(a, b, i - 1, j) && left == Dist(a, b, i, j - 1) && diag == Dist(a, b, i - 1, j - 1)
    ensures Dist(a, b, i, j) == if a[i - 1] == b[j - 1] then diag else Min3(up + 1, left + 1, diag + 1)
  {
    if a[i - 1] == b[j - 1] {
      MatchShortcut(a, b, i, j);
    }
  }

  /** `dp` is a table for `a` and `b` whose rows below `k` hold the distances. */
  ghost predicate RowsDone(a: string, b: string, dp: array2<int>, k: nat)
    reads dp
    requires dp.Length0 == |a| + 1 && dp.Length1 == |b| + 1
  {
    forall i, j {:trigger dp[i, j]} :: 0 <= i < k && i <= |a| && 0 <= j <= |b| ==> dp[i, j] == Dist(a, b, i, j)
  }

  /** The inner loop of the source: row `i` of the table from the row above it. */
  method FillRow(a: string, b: string, dp: array2<int>, i: nat)
    requires dp.Length0 == |a| + 1 && dp.Length1 == |b| + 1
    requires 1 <= i <= |a|
    requires RowsDone(a, b, dp, i) && dp[i, 0] == i
    modifies dp
    ensures RowsDone(a, b, dp, i + 1)
    ensures forall i', j' :: i < i' <= |a| && 0 <= j' <= |b| ==> dp[i', j'] == old(dp[i', j'])
  {
    for j := 1 to |b| + 1
      invariant forall i', j' :: 0 <= i' <= |a| && i' != i && 0 <= j' <= |b| ==> dp[i', j'] == old(dp[i', j'])
      invariant forall j' {:trigger dp[i, j']} :: 0 <= j' < j ==> dp[i, j'] == Dist(a, b, i, j')
    {
      var up, left, diag := dp[i - 1, j], dp[i, j - 1], dp[i - 1, j - 1];
      assert up == old(dp[i - 1, j]) && diag == old(dp[i - 1, j - 1]);
      CellValue(a, b, i, j, up, left, diag);
      dp[i, j] := if a[i - 1] == b[j - 1] then diag else Min3(up + 1, left + 1, diag + 1);
    }
    forall i', j' | 0 <= i' < i + 1 && i' <= |a| && 0 <= j' <= |b|
      ensures dp[i', j'] == Dist(a, b, i', j')
    {
      if i' < i {
        assert dp[i', j'] == old(dp[i', j']);
      }
    }
  }

  /** `levenshtein(a, b)`: fills the `(|a| + 1) × (|b| + 1)` table row by row. */
  method Levenshtein(a: string, b: string) returns (d: nat)
    ensures d == Distance(a, b)
  {
    var m, n := |a|, |b|;
    var dp := new int[m + 1, n + 1]((i, j) => 0);
    for i := 0 to m + 1
      invariant forall i' :: 0 <= i' < i ==> dp[i', 0] == i'
    {
      dp[i, 0] := i;
    }
    for j := 0 to n + 1
      invariant forall i' :: 0 <= i' <= m ==> dp[i', 0] == i'
      invariant forall j' :: 0 <= j' < j ==> dp[0, j'] == j'
    {
      dp[0, j] := j;
    }
    for i := 1 to m + 1
      invariant RowsDone(a, b, dp, i)
      invariant forall i' :: i <= i' <= m ==> dp[i', 0] == i'
    {
      FillRow(a, b, dp, i);
    }
    d := dp[m, n];
  }
}
