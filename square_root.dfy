// `mySqrt` of leetcode/64.cpp: the integer square root by bisection. The
// square `mid * mid` is taken in 64 bits there, so it cannot overflow for
// a 32-bit `n`, and mathematical integers model it exactly.
module SquareRoot {

  /** `r` is the integer square root of `n`: the largest number whose square is at most `n`. */
  ghost predicate FloorRoot(r: int, n: int)
  {
    0 <= r && r * r <= n < (r + 1) * (r + 1)
  }

  /**
   * `mySqrt(n)`: the integer square root of a non-negative `n`; for a
   * negative `n` the loop never runs and -1 comes back.
   */
  method MySqrt(n: int) returns (r: int)
    ensures n >= 0 ==> FloorRoot(r, n)
    ensures n < 0 ==> r == -1
  {
    var s, e := 0, n;
    var ans := -1;
    while s <= e
      invariant n >= 0 ==> 0 <= s <= e + 1 <= n + 1
      invariant n < 0 ==> s == 0 && e == n
      invariant ans == s - 1
      invariant 0 < s ==> ans * ans < n
      invariant n < (e + 1) * (e + 1)
      decreases e - s
    {
      var mid := s + (e - s) / 2;
      var sq := mid * mid;
      if sq == n {
        return mid;
      }
      if sq < n {
        ans := mid;
        s := mid + 1;
      } else {
        e := mid - 1;
      }
    }
    return ans;
  }

  /** There is only one integer square root, so a perfect square gets its exact root. */
  lemma FloorRootUnique(r: int, q: int, n: int)
    requires FloorRoot(r, n) && FloorRoot(q, n)
    ensures r == q
  {
    if r < q {
      Monotone(r + 1, q);
    } else if q < r {
      Monotone(q + 1, r);
    }
  }

  lemma Monotone(x: int, y: int)
    requires 0 <= x <= y
    ensures x * x <= y * y
  {
  }

  /** For a perfect square `k * k` the integer square root is `k` itself. */
  lemma PerfectSquareRoot(r: int, k: nat)
    requires FloorRoot(r, k * k)
    ensures r == k
  {
    assert FloorRoot(k, k * k);
    FloorRootUnique(r, k, k * k);
  }
}
