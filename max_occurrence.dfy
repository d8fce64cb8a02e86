// `getMaxOccuringChar` of Strings/getMaxOccurence.cpp: count the letters
// of a string in 26 counters, upper and lower case together, then pick the
// first counter that is strictly larger than every one before it.
module MaxOccurrence {

  predicate IsLetter(ch: char)
  {
    'a' <= ch <= 'z' || 'A' <= ch <= 'Z'
  }

  ghost predicate AllLetters(s: string)
  {
    forall k :: 0 <= k < |s| ==> IsLetter(s[k])
  }

  /** The counter a letter goes to: its place in the alphabet, whatever its case. */
  function Num(ch: char): int
  {
    if 'a' <= ch <= 'z' then ch as int - 'a' as int else ch as int - 'A' as int
  }

  /** How many letters of `s` go to counter `x`. */
  ghost function Count(s: string, x: int): nat
  {
    if s == [] then 0 else Count(s[..|s| - 1], x) + (if Num(s[|s| - 1]) == x then 1 else 0)
  }

  /** All 26 counters after the letters of `s`. */
  ghost function Tally(s: string): (r: seq<int>)
    ensures |r| == 26
  {
    seq(26, x requires 0 <= x < 26 => Count(s, x))
  }

  /** Both cases of a letter go to the same counter, its place in the alphabet. */
  lemma CaseBlind(x: int)
    requires 0 <= x < 26
    ensures Num(('a' as int + x) as char) == x && Num(('A' as int + x) as char) == x
  {
  }

  /** Counting one more letter raises exactly its counter. */
  lemma TallyStep(s: string, k: nat)
    requires k < |s| && IsLetter(s[k])
    ensures 0 <= Num(s[k]) < 26
    ensures Tally(s[..k + 1]) == Tally(s[..k])[Num(s[k]) := Tally(s[..k])[Num(s[k])] + 1]
  {
    assert s[..k + 1][..k] == s[..k];
  }

  /**
   * The letter with the highest count, ties going to the earliest letter of
   * the alphabet: `ans` has the highest count, and every letter before it a
   * smaller one.
   */
  ghost predicate MostFrequent(s: string, ans: int)
  {
    0 <= ans < 26 &&
    (forall x :: 0 <= x < 26 ==> Count(s, x) <= Count(s, ans)) &&
    (forall x :: 0 <= x < ans ==> Count(s, x) < Count(s, ans))
  }

  /** There is only one such letter. */
  lemma MostFrequentUnique(s: string, a: int, b: int)
    requires MostFrequent(s, a) && MostFrequent(s, b)
    ensures a == b
  {
    var countA, countB := Count(s, a), Count(s, b);
  }

  /**
   * `getMaxOccuringChar(s)` on a string of letters: the lower-case letter
   * that occurs most often, counting both cases, ties going to the earliest.
   */
  method GetMaxOccuringChar(s: string) returns (r: char)
    requires AllLetters(s)
    ensures exists ans :: MostFrequent(s, ans) && r == ('a' as int + ans) as char
  {
    var n := |s|;
    var arr := new int[26](_ => 0);
    assert arr[..] == Tally(s[..0]);
    for i := 0 to n
      invariant arr[..] == Tally(s[..i])
    {
      var ch := s[i];
      var num := 0;
      if 'a' <= ch <= 'z' {
        num := ch as int - 'a' as int;
      } else {
        num := ch as int - 'A' as int;
      }
      TallyStep(s, i);
      arr[num] := arr[num] + 1;
    }
    assert s[..n] == s;
    forall x | 0 <= x < 26
      ensures arr[x] == Count(s, x)
    {
      assert arr[x] == arr[..][x];
    }
    var maxi, ans := -1, -1;
    for i := 0 to 26
      invariant i == 0 ==> maxi == -1 && ans == -1
      invariant i > 0 ==> 0 <= ans < i && maxi == arr[ans]
      invariant forall x :: 0 <= x < i ==> arr[x] <= maxi
      invariant forall x :: 0 <= x < ans ==> arr[x] < maxi
    {
      if maxi < arr[i] {
        ans := i;
        maxi := arr[i];
      }
    }
    assert MostFrequent(s, ans);
    r := ('a' as int + ans) as char;
  }

  /** An empty string has all counters at zero and gives `'a'`. */
  lemma EmptyGivesA(ans: int)
    requires MostFrequent([], ans)
    ensures ans == 0
  {
    assert Count([], 0) == 0 && Count([], ans) == 0;
  }
}
