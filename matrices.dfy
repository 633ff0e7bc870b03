/** Dense integer matrices as lists of rows, the form the network's matrices
    take (numpy arrays converted with `tolist()`), with the product of a
    matrix with its transpose, element-wise thresholding and the sums the
    statistics are built from. */
module Matrices {

  /** `m` has `rows` rows of `cols` entries each. */
  predicate IsMatrix(m: seq<seq<int>>, rows: nat, cols: nat)
  {
    |m| == rows && forall i :: 0 <= i < rows ==> |m[i]| == cols
  }

  /** Every entry is 0 or 1. */
  predicate IsBinary(m: seq<seq<int>>)
  {
    forall i, j :: 0 <= i < |m| && 0 <= j < |m[i]| ==> m[i][j] == 0 || m[i][j] == 1
  }

  predicate IsSquare(m: seq<seq<int>>)
  {
    IsMatrix(m, |m|, |m|)
  }

  predicate Symmetric(m: seq<seq<int>>)
    requires IsSquare(m)
  {
    forall i, k :: 0 <= i < |m| && 0 <= k < |m| ==> m[i][k] == m[k][i]
  }

  /** Inner product of two rows of equal length. */
  function Dot(a: seq<int>, b: seq<int>): int
    requires |a| == |b|
  {
    if |a| == 0 then 0
    else Dot(a[..|a| - 1], b[..|b| - 1]) + a[|a| - 1] * b[|b| - 1]
  }

  /** Number of 1 entries in a row. */
  function Ones(a: seq<int>): nat
  {
    if |a| == 0 then 0
    else Ones(a[..|a| - 1]) + (if a[|a| - 1] == 1 then 1 else 0)
  }

  /** `m · mᵀ`: entry (i, k) is the inner product of rows i and k. */
  function TimesTranspose(m: seq<seq<int>>, cols: nat): (p: seq<seq<int>>)
    requires IsMatrix(m, |m|, cols)
    ensures IsSquare(p) && |p| == |m|
    ensures forall i, k :: 0 <= i < |m| && 0 <= k < |m| ==> p[i][k] == Dot(m[i], m[k])
  {
    seq(|m|, i requires 0 <= i < |m| =>
      seq(|m|, k requires 0 <= k < |m| => Dot(m[i], m[k])))
  }

  /** Element-wise `1 if x > 0 else 0`. */
  function Threshold(p: seq<seq<int>>): (b: seq<seq<int>>)
    requires IsSquare(p)
    ensures IsSquare(b) && |b| == |p| && IsBinary(b)
    ensures forall i, k :: 0 <= i < |p| && 0 <= k < |p| ==> (b[i][k] == 1 <==> p[i][k] > 0)
  {
    seq(|p|, i requires 0 <= i < |p| =>
      seq(|p|, k requires 0 <= k < |p| => if p[i][k] > 0 then 1 else 0))
  }

  lemma {:induction false} DotCommutes(a: seq<int>, b: seq<int>)
    requires |a| == |b|
    ensures Dot(a, b) == Dot(b, a)
  {
    if |a| > 0 {
      DotCommutes(a[..|a| - 1], b[..|b| - 1]);
    }
  }

  /** A 0/1 row with itself: the number of its ones. */
  lemma {:induction false} DotSelfIsOnes(a: seq<int>)
    requires forall j :: 0 <= j < |a| ==> a[j] == 0 || a[j] == 1
    ensures Dot(a, a) == Ones(a)
  {
    if |a| > 0 {
      DotSelfIsOnes(a[..|a| - 1]);
    }
  }

  /** Two 0/1 rows have a positive inner product iff they share a 1. */
  lemma {:induction false} DotPositiveIff(a: seq<int>, b: seq<int>)
    requires |a| == |b|
    requires forall j :: 0 <= j < |a| ==> a[j] == 0 || a[j] == 1
    requires forall j :: 0 <= j < |b| ==> b[j] == 0 || b[j] == 1
    ensures Dot(a, b) >= 0
    ensures Dot(a, b) > 0 <==> exists j :: 0 <= j < |a| && a[j] == 1 && b[j] == 1
  {
    if |a| > 0 {
      var a', b' := a[..|a| - 1], b[..|b| - 1];
      DotPositiveIff(a', b');
      if exists j :: 0 <= j < |a| && a[j] == 1 && b[j] == 1 {
        var j :| 0 <= j < |a| && a[j] == 1 && b[j] == 1;
        if j < |a| - 1 {
          assert a'[j] == 1 && b'[j] == 1;
        }
      }
      if exists j :: 0 <= j < |a'| && a'[j] == 1 && b'[j] == 1 {
        var j :| 0 <= j < |a'| && a'[j] == 1 && b'[j] == 1;
        assert a[j] == 1 && b[j] == 1;
      }
    }
  }

  // ---- sums over a square matrix ----

  /** Sum of `a[i][k]` for `k < n`, `k != i`. */
  function RowOffDiagonal(a: seq<seq<int>>, i: nat, n: nat): int
    requires IsSquare(a) && i < |a| && n <= |a|
  {
    if n == 0 then 0
    else RowOffDiagonal(a, i, n - 1) + (if n - 1 != i then a[i][n - 1] else 0)
  }

  /** Sum of `a[i][k]` for `i < k < n`. */
  function RowAbove(a: seq<seq<int>>, i: nat, n: nat): int
    requires IsSquare(a) && i < |a| && n <= |a|
  {
    if n == 0 then 0
    else RowAbove(a, i, n - 1) + (if n - 1 > i then a[i][n - 1] else 0)
  }

  /** Sum of the off-diagonal entries of rows `i < m`, columns `< n`. */
  function OffDiagonalRows(a: seq<seq<int>>, m: nat, n: nat): int
    requires IsSquare(a) && m <= |a| && n <= |a|
  {
    if m == 0 then 0 else OffDiagonalRows(a, m - 1, n) + RowOffDiagonal(a, m - 1, n)
  }

  /** Sum of the entries above the diagonal in rows `i < m`, columns `< n`. */
  function AboveRows(a: seq<seq<int>>, m: nat, n: nat): int
    requires IsSquare(a) && m <= |a| && n <= |a|
  {
    if m == 0 then 0 else AboveRows(a, m - 1, n) + RowAbove(a, m - 1, n)
  }

  /** Sum over ordered pairs i != k of `a[i][k]`. */
  function OffDiagonalSum(a: seq<seq<int>>): int
    requires IsSquare(a)
  {
    OffDiagonalRows(a, |a|, |a|)
  }

  /** Sum over unordered pairs i < k of `a[i][k]`. */
  function AboveDiagonalSum(a: seq<seq<int>>): int
    requires IsSquare(a)
  {
    AboveRows(a, |a|, |a|)
  }

  /** Sum of column `c` over rows `i < m`. */
  function ColumnPrefix(a: seq<seq<int>>, c: nat, m: nat): int
    requires IsSquare(a) && c < |a| && m <= |a|
  {
    if m == 0 then 0 else ColumnPrefix(a, c, m - 1) + a[m - 1][c]
  }

  lemma {:induction false} OffDiagonalRowsExtend(a: seq<seq<int>>, m: nat, n: nat)
    requires IsSquare(a) && m <= n < |a|
    ensures OffDiagonalRows(a, m, n + 1) == OffDiagonalRows(a, m, n) + ColumnPrefix(a, n, m)
  {
    if m > 0 {
      OffDiagonalRowsExtend(a, m - 1, n);
    }
  }

  lemma {:induction false} AboveRowsExtend(a: seq<seq<int>>, m: nat, n: nat)
    requires IsSquare(a) && m <= n < |a|
    ensures AboveRows(a, m, n + 1) == AboveRows(a, m, n) + ColumnPrefix(a, n, m)
  {
    if m > 0 {
      AboveRowsExtend(a, m - 1, n);
    }
  }

  lemma {:induction false} RowAboveOfLast(a: seq<seq<int>>, i: nat, n: nat)
    requires IsSquare(a) && i < |a| && n <= i + 1
    ensures RowAbove(a, i, n) == 0
  {
    if n > 0 {
      RowAboveOfLast(a, i, n - 1);
    }
  }

  lemma {:induction false} RowOffDiagonalOfLast(a: seq<seq<int>>, i: nat, n: nat)
    requires IsSquare(a) && Symmetric(a) && i < |a| && n <= i
    ensures RowOffDiagonal(a, i, n) == ColumnPrefix(a, i, n)
  {
    if n > 0 {
      RowOffDiagonalOfLast(a, i, n - 1);
    }
  }

  lemma {:induction false} SymmetricSplit(a: seq<seq<int>>, n: nat)
    requires IsSquare(a) && Symmetric(a) && n <= |a|
    ensures OffDiagonalRows(a, n, n) == 2 * AboveRows(a, n, n)
  {
    if n > 0 {
      var m := n - 1;
      SymmetricSplit(a, m);
      OffDiagonalRowsExtend(a, m, m);
      AboveRowsExtend(a, m, m);
      RowOffDiagonalOfLast(a, m, m);
      RowAboveOfLast(a, m, n);
      assert RowOffDiagonal(a, m, n) == RowOffDiagonal(a, m, m);
    }
  }

  /** For a symmetric matrix the ordered-pair sum counts each unordered pair twice. */
  lemma OffDiagonalIsTwiceAbove(a: seq<seq<int>>)
    requires IsSquare(a) && Symmetric(a)
    ensures OffDiagonalSum(a) == 2 * AboveDiagonalSum(a)
  {
    SymmetricSplit(a, |a|);
  }

  lemma {:induction false} RowOffDiagonalMonotone(a: seq<seq<int>>, b: seq<seq<int>>, i: nat, n: nat)
    requires IsSquare(a) && IsSquare(b) && |a| == |b| && i < |a| && n <= |a|
    requires forall x, y :: 0 <= x < |a| && 0 <= y < |a| ==> a[x][y] <= b[x][y]
    ensures RowOffDiagonal(a, i, n) <= RowOffDiagonal(b, i, n)
  {
    if n > 0 {
      RowOffDiagonalMonotone(a, b, i, n - 1);
    }
  }

  lemma {:induction false} OffDiagonalRowsMonotone(a: seq<seq<int>>, b: seq<seq<int>>, m: nat)
    requires IsSquare(a) && IsSquare(b) && |a| == |b| && m <= |a|
    requires forall x, y :: 0 <= x < |a| && 0 <= y < |a| ==> a[x][y] <= b[x][y]
    ensures OffDiagonalRows(a, m, |a|) <= OffDiagonalRows(b, m, |a|)
  {
    if m > 0 {
      OffDiagonalRowsMonotone(a, b, m - 1);
      RowOffDiagonalMonotone(a, b, m - 1, |a|);
    }
  }

  /** Entry-wise domination carries over to the off-diagonal sum. */
  lemma OffDiagonalSumMonotone(a: seq<seq<int>>, b: seq<seq<int>>)
    requires IsSquare(a) && IsSquare(b) && |a| == |b|
    requires forall x, y :: 0 <= x < |a| && 0 <= y < |a| ==> a[x][y] <= b[x][y]
    ensures OffDiagonalSum(a) <= OffDiagonalSum(b)
  {
    OffDiagonalRowsMonotone(a, b, |a|);
  }

  /** A count out of a larger positive total is a proportion. */
  lemma RatioAtMostOne(x: nat, y: nat)
    requires 0 < y && x <= y
    ensures 0.0 <= x as real / y as real <= 1.0
  {
    var q := x as real / y as real;
    assert q * y as real == x as real;
    assert (1.0 - q) * y as real == (y - x) as real;
  }

  /** A total between `n * lo` and `n * hi` averages between `lo` and `hi`. */
  lemma RatioBetween(s: nat, n: nat, lo: nat, hi: nat)
    requires 0 < n && n * lo <= s <= n * hi
    ensures lo as real <= s as real / n as real <= hi as real
  {
    RatioAtLeast(s, n, lo);
    RatioAtMost(s, n, hi);
  }

  lemma RatioAtLeast(s: nat, n: nat, lo: nat)
    requires 0 < n && n * lo <= s
    ensures lo as real <= s as real / n as real
  {
    var q := s as real / n as real;
    assert q * n as real == s as real;
    assert (q - lo as real) * n as real == (s - n * lo) as real;
  }

  lemma RatioAtMost(s: nat, n: nat, hi: nat)
    requires 0 < n && s <= n * hi
    ensures s as real / n as real <= hi as real
  {
    var q := s as real / n as real;
    assert q * n as real == s as real;
    assert (hi as real - q) * n as real == (n * hi - s) as real;
  }

  /** A count out of a positive total is the whole exactly when it equals it. */
  lemma RatioIsOne(x: nat, y: nat)
    requires 0 < y
    ensures x as real / y as real == 1.0 <==> x == y
  {
    var q := x as real / y as real;
    assert q * y as real == x as real;
  }
}
