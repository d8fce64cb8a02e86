// `maxiandmini` of maxiandmini.cpp: one pass keeps the largest and the
// smallest value seen, starting from `INT_MIN` and `INT_MAX`; the pair is
// returned here instead of printed.
module MinMax {

  const IntMin: int := -0x8000_0000
  const IntMax: int := 0x7fff_ffff

  /** The values a C `int` can hold. */
  type Int32 = x: int | -0x8000_0000 <= x <= 0x7fff_ffff

  /**
   * `maxiandmini(arr, n)`: `maxi` bounds every cell from above and `mini`
   * from below, and both are cells; an empty array leaves the starting
   * values `INT_MIN` and `INT_MAX`.
   */
  method MaxiAndMini(arr: seq<Int32>) returns (maxi: Int32, mini: Int32)
    ensures forall k :: 0 <= k < |arr| ==> mini <= arr[k] <= maxi
    ensures |arr| > 0 ==> maxi in arr && mini in arr
    ensures |arr| == 0 ==> maxi == IntMin && mini == IntMax
  {
    maxi, mini := IntMin, IntMax;
    for i := 0 to |arr|
      invariant forall k :: 0 <= k < i ==> mini <= arr[k] <= maxi
      invariant i > 0 ==> maxi in arr[..i] && mini in arr[..i]
      invariant i == 0 ==> maxi == IntMin && mini == IntMax
    {
      assert arr[..i + 1] == arr[..i] + [arr[i]];
      if arr[i] > maxi {
        maxi := arr[i];
      }
      if arr[i] < mini {
        mini := arr[i];
      }
    }
    assert arr[..|arr|] == arr;
  }
}
