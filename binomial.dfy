// `fact` and `nCr` of nCr.cpp: the factorial by a loop, and the binomial
// coefficient as `n! / (r! * (n - r)!)`.
module Binomial {

  /** `n!`, with the empty product 1 for `n <= 0`, as the loop gives it. */
  function Fact(n: int): (r: int)
    ensures r >= 1
    decreases n
  {
    if n <= 0 then 1 else n * Fact(n - 1)
  }

  /** Pascal's triangle: the number of ways to choose `r` of `n`. */
  function Choose(n: nat, r: nat): nat
    decreases n
  {
    if r == 0 then 1 else if n == 0 then 0 else Choose(n - 1, r - 1) + Choose(n - 1, r)
  }

  /** `fact(n)`: the product `1 * 2 * ... * n`. */
  method FactOf(n: int) returns (fact: int)
    ensures fact == Fact(n)
  {
    fact := 1;
    var i := 1;
    while i <= n
      invariant 1 <= i <= if n >= 1 then n + 1 else 1
      invariant fact == Fact(i - 1)
    {
      fact := fact * i;
      i := i + 1;
    }
  }

  /** Nothing is chosen from fewer than `r` things. */
  lemma {:induction false} ChooseTooMany(n: nat, r: nat)
    requires n < r
    ensures Choose(n, r) == 0
  {
    if n > 0 {
      ChooseTooMany(n - 1, r - 1);
      ChooseTooMany(n - 1, r);
    }
  }

  /** There is one way to choose everything. */
  lemma {:induction false} ChooseAll(n: nat)
    ensures Choose(n, n) == 1
  {
    if n > 0 {
      ChooseAll(n - 1);
      ChooseTooMany(n - 1, n);
    }
  }

  /** The factorial formula: `Choose(n, r) * r! * (n - r)! == n!`. */
  lemma {:induction false} ChooseFact(n: nat, r: nat)
    requires r <= n
    ensures Choose(n, r) * (Fact(r) * Fact(n - r)) == Fact(n)
    decreases n
  {
    if r == n {
      ChooseAll(n);
      assert Fact(n - r) == 1;
    } else if r > 0 {
      ChooseFact(n - 1, r - 1);
      ChooseFact(n - 1, r);
      PascalStep(n, r, Choose(n - 1, r - 1), Choose(n - 1, r));
    }
  }

  /** The step of `ChooseFact`: the two halves of Pascal's rule add up to `n!`. */
  lemma PascalStep(n: nat, r: nat, a: int, b: int)
    requires 0 < r < n
    requires a * (Fact(r - 1) * Fact(n - r)) == Fact(n - 1)
    requires b * (Fact(r) * Fact(n - 1 - r)) == Fact(n - 1)
    ensures (a + b) * (Fact(r) * Fact(n - r)) == Fact(n)
  {
    var f := Fact(n - 1);
    var x, z := Fact(r - 1), Fact(n - r);
    var u, y := Fact(r), Fact(n - 1 - r);
    var w := n - r;
    assert u == r * x;
    assert z == w * y;
    var d := u * z;
    Regroup(a, r, x, z);
    assert a * d == r * f;
    Regroup(b, w, y, u);
    assert u * z == z * u && b * (y * u) == b * (u * y);
    assert b * d == w * f;
    assert (a + b) * d == a * d + b * d;
    assert r * f + w * f == n * f;
  }

  /** Moving a factor `k` to the front of a product. */
  lemma Regroup(a: int, k: int, x: int, z: int)
    ensures a * ((k * x) * z) == k * (a * (x * z))
  {
  }

  /** Choosing `r` is choosing the `n - r` left behind. */
  lemma Symmetry(n: nat, r: nat)
    requires r <= n
    ensures Choose(n, r) == Choose(n, n - r)
  {
    var a, b := Choose(n, r), Choose(n, n - r);
    var x, y := Fact(r), Fact(n - r);
    ChooseFact(n, r);
    ChooseFact(n, n - r);
    assert n - (n - r) == r;
    assert a * (x * y) == b * (y * x);
    assert y * x == x * y;
    Cancel(a, b, x * y);
  }

  lemma Cancel(a: int, b: int, d: int)
    requires d > 0 && a * d == b * d
    ensures a == b
  {
  }

  /**
   * `nCr(n, r)`: for `0 <= r <= n` the division is exact and gives the
   * number of ways to choose `r` of `n`.
   */
  method NCr(n: int, r: int) returns (c: int)
    ensures 0 <= r <= n ==> c == Choose(n, r) && c * (Fact(r) * Fact(n - r)) == Fact(n)
  {
    var fn := FactOf(n);
    var fr := FactOf(r);
    var fnr := FactOf(n - r);
    c := fn / (fr * fnr);
    if 0 <= r <= n {
      ChooseFact(n, r);
      Exact(Choose(n, r), fr * fnr, fn);
    }
  }

  /** An exact quotient is what integer division gives. */
  lemma Exact(q: int, d: int, m: int)
    requires d > 0 && q * d == m
    ensures m / d == q
  {
    var k := m / d - q;
    assert d * (m / d) + m % d == m;
    assert d * k == -(m % d);
    if k >= 1 {
      Bigger(d, k);
    } else if k <= -1 {
      Bigger(d, -k);
    }
  }

  lemma Bigger(d: int, k: int)
    requires d > 0 && k >= 1
    ensures d * k >= d && d * -k <= -d
  {
  }

  /** Rows 1 to 5 of Pascal's triangle, each from the one above. */
  lemma Row2()
    ensures Choose(2, 0) == 1 && Choose(2, 1) == 2 && Choose(2, 2) == 1 && Choose(2, 3) == 0
  {
    ChooseTooMany(2, 3);
    assert Choose(1, 0) == 1 && Choose(1, 1) == 1 && Choose(1, 2) == 0;
  }

  lemma Row3()
    ensures Choose(3, 0) == 1 && Choose(3, 1) == 3 && Choose(3, 2) == 3 && Choose(3, 3) == 1
    ensures Choose(3, 4) == 0
  {
    Row2();
    ChooseTooMany(3, 4);
  }

  lemma Row4()
    ensures Choose(4, 0) == 1 && Choose(4, 1) == 4 && Choose(4, 2) == 6 && Choose(4, 3) == 4
    ensures Choose(4, 4) == 1 && Choose(4, 5) == 0
  {
    Row3();
    ChooseTooMany(4, 5);
  }

  lemma Row5()
    ensures Choose(5, 0) == 1 && Choose(5, 1) == 5 && Choose(5, 2) == 10
    ensures Choose(5, 3) == 10 && Choose(5, 4) == 5 && Choose(5, 5) == 1
  {
    Row4();
  }

  /** The source's demonstration: row 5 of Pascal's triangle. */
  method Demo() returns (row: seq<int>)
    ensures row == [1, 5, 10, 10, 5, 1]
  {
    var c0 := NCr(5, 0);
    var c1 := NCr(5, 1);
    var c2 := NCr(5, 2);
    var c3 := NCr(5, 3);
    var c4 := NCr(5, 4);
    var c5 := NCr(5, 5);
    Row5();
    row := [c0, c1, c2, c3, c4, c5];
  }
}
