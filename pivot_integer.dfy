// `pivotInteger` of leetcode/2485.cpp: the first `x` in `1..n` for which
// `1 + ... + x` equals `x + ... + n`, found from a running left sum and the
// total.
module PivotInteger {

  /** `1 + 2 + ... + k`, zero when `k <= 0`. */
  function SumTo(k: int): int
    decreases k
  {
    if k <= 0 then 0 else SumTo(k - 1) + k
  }

  /** Gauss: twice the sum up to `k` is `k * (k + 1)`. */
  lemma {:induction false} SumToFormula(k: nat)
    ensures 2 * SumTo(k) == k * (k + 1)
  {
    if k > 0 {
      SumToFormula(k - 1);
    }
  }

  /**
   * `x` splits `1..n` so that `1 + ... + (x - 1)` equals
   * `(x + 1) + ... + n`.
   */
  ghost predicate IsPivot(n: int, x: int)
  {
    1 <= x <= n && SumTo(x - 1) == SumTo(n) - SumTo(x)
  }

  /** The pivot is the `x` with `2 * x * x == n * (n + 1)`, so there is at most one. */
  lemma PivotSquare(n: int, x: int)
    requires 1 <= x <= n
    ensures IsPivot(n, x) <==> 2 * x * x == n * (n + 1)
  {
    SumToFormula(x - 1);
    SumToFormula(x);
    SumToFormula(n);
    assert (x - 1) * x + x * (x + 1) == 2 * x * x;
  }

  /** Two pivots of the same `n` are the same number. */
  lemma PivotUnique(n: int, x: int, y: int)
    requires IsPivot(n, x) && IsPivot(n, y)
    ensures x == y
  {
    PivotSquare(n, x);
    PivotSquare(n, y);
    if x < y {
      SquareGrows(x, y);
    } else if y < x {
      SquareGrows(y, x);
    }
  }

  lemma SquareGrows(x: int, y: int)
    requires 0 < x < y
    ensures x * x < y * y
  {
    assert x * x < x * y;
  }

  /**
   * `pivotInteger(n)`: the smallest pivot of `1..n`, or -1 exactly when
   * there is none (in particular when `n <= 0`).
   */
  method PivotIntegerOf(n: int) returns (r: int)
    ensures r == -1 || 1 <= r <= n
    ensures r != -1 ==> IsPivot(n, r)
    ensures forall x :: 1 <= x <= n && (r == -1 || x < r) ==> !IsPivot(n, x)
  {
    var totalSum := 0;
    var i := 1;
    while i <= n
      invariant 1 <= i <= if n >= 1 then n + 1 else 1
      invariant totalSum == SumTo(i - 1)
    {
      totalSum := totalSum + i;
      i := i + 1;
    }
    assert totalSum == SumTo(n);
    var leftSum := 0;
    i := 1;
    while i <= n
      invariant 1 <= i <= if n >= 1 then n + 1 else 1
      invariant leftSum == SumTo(i - 1)
      invariant forall x :: 1 <= x < i ==> !IsPivot(n, x)
    {
      var rightSum := totalSum - leftSum - i;
      if leftSum == rightSum {
        return i;
      }
      leftSum := leftSum + i;
      i := i + 1;
    }
    return -1;
  }

  /** `n = 8`: 1 + ... + 5 and 6 + 7 + 8 are both 21, and 6 is the pivot. */
  lemma SampleEight()
    ensures IsPivot(8, 6)
  {
    PivotSquare(8, 6);
  }

  /** `n = 1`: the single number is its own pivot. */
  lemma SampleOne()
    ensures IsPivot(1, 1)
  {
    PivotSquare(1, 1);
  }

  /** `n = 4`: no pivot, as `2 * x * x == 20` has no solution. */
  lemma SampleNone(x: int)
    ensures !IsPivot(4, x)
  {
    if 1 <= x <= 4 {
      PivotSquare(4, x);
    }
  }
}
