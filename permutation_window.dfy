// `checkInclusion` of leetcode/567.cpp: does some stretch of `s2` hold
// exactly the letters of `s1`, in any order? A window of `|s1|` cells
// slides over `s2` while an array of 26 counters keeps, per letter, how many
// more times it occurs in `s1` than in the window.
module PermutationWindow {

  ghost predicate Lowercase(s: string)
  {
    forall k :: 0 <= k < |s| ==> 'a' <= s[k] <= 'z'
  }

  /** The letter with index `x` in the alphabet. */
  function Letter(x: int): char
    requires 0 <= x < 26
  {
    ('a' as int + x) as char
  }

  /** How often letter `x` occurs in `s`. */
  ghost function Count(s: string, x: int): nat
    requires 0 <= x < 26
  {
    multiset(s)[Letter(x)]
  }

  /** `s2[..right + 1]` ends with a permutation of `s1`. */
  ghost predicate EndsAnagram(s1: string, s2: string, right: int)
  {
    0 <= right < |s2| && |s1| <= right + 1 &&
    multiset(s2[right + 1 - |s1|..right + 1]) == multiset(s1)
  }

  /** The `|s1|` cells of `s2` from `k` on are a permutation of `s1`. */
  ghost predicate StartsAnagram(s1: string, s2: string, k: int)
  {
    0 <= k && k + |s1| <= |s2| && multiset(s2[k..k + |s1|]) == multiset(s1)
  }

  /**
   * What the loop over `right` checks: some window of `|s1|` cells that
   * ends at a cell `right` of `s2` holds the letters of `s1`.
   */
  ghost predicate WindowFound(s1: string, s2: string)
  {
    exists right :: EndsAnagram(s1, s2, right)
  }

  /** Where letter `c` is counted. */
  function Index(c: char): int
  {
    c as int - 'a' as int
  }

  /** Per letter, how many more times it occurs in `a` than in `w`. */
  ghost function Balance(a: string, w: string): (r: seq<int>)
    ensures |r| == 26
  {
    seq(26, x requires 0 <= x < 26 => Count(a, x) - Count(w, x))
  }

  lemma LetterIndex(c: char)
    requires 'a' <= c <= 'z'
    ensures 0 <= Index(c) < 26 && Letter(Index(c)) == c
  {
  }

  /** Counting one more letter of `s1`. */
  lemma CountMore(a: string, c: char, w: string)
    requires 'a' <= c <= 'z'
    ensures Balance(a + [c], w) == Balance(a, w)[Index(c) := Balance(a, w)[Index(c)] + 1]
  {
    LetterIndex(c);
    assert multiset(a + [c]) == multiset(a) + multiset{c};
  }

  /** A letter entering the window at its end. */
  lemma WindowGrows(a: string, w: string, c: char)
    requires 'a' <= c <= 'z'
    ensures Balance(a, w + [c]) == Balance(a, w)[Index(c) := Balance(a, w)[Index(c)] - 1]
  {
    LetterIndex(c);
    assert multiset(w + [c]) == multiset(w) + multiset{c};
  }

  /** A letter leaving the window at its start. */
  lemma WindowShrinks(a: string, c: char, w: string)
    requires 'a' <= c <= 'z'
    ensures Balance(a, w) == Balance(a, [c] + w)[Index(c) := Balance(a, [c] + w)[Index(c)] + 1]
  {
    LetterIndex(c);
    assert multiset([c] + w) == multiset{c} + multiset(w);
  }

  /**
   * For lower-case strings, a balance of zero for every letter means the
   * window is a permutation of `s1`, and only then.
   */
  lemma CountsDecide(a: string, w: string)
    requires Lowercase(a) && Lowercase(w)
    ensures (forall x :: 0 <= x < 26 ==> Balance(a, w)[x] == 0) <==> multiset(a) == multiset(w)
  {
    if forall x :: 0 <= x < 26 ==> Balance(a, w)[x] == 0 {
      forall c
        ensures multiset(a)[c] == multiset(w)[c]
      {
        if 'a' <= c <= 'z' {
          LetterIndex(c);
          assert Balance(a, w)[Index(c)] == 0;
        } else {
          assert c !in a && c !in w;
        }
      }
    }
  }

  /**
   * For a non-empty `s1` the answer is whether some window of `|s1|`
   * consecutive cells of `s2` is a permutation of `s1`; for an empty `s1`
   * it is whether `s2` is non-empty, as the empty window is only checked
   * after a cell has been read; a longer `s1` is never found.
   */
  lemma WindowFoundMeans(s1: string, s2: string)
    ensures |s1| >= 1 ==> (WindowFound(s1, s2) <==> exists k :: StartsAnagram(s1, s2, k))
    ensures |s1| == 0 ==> (WindowFound(s1, s2) <==> |s2| > 0)
    ensures |s1| > |s2| ==> !WindowFound(s1, s2)
  {
    if |s1| >= 1 {
      SameWindows(s1, s2);
    } else if |s2| > 0 {
      assert s2[1..1] == [];
      assert EndsAnagram(s1, s2, 0);
    }
  }

  /** A window of a non-empty `s1` can be named by its first or by its last cell. */
  lemma SameWindows(s1: string, s2: string)
    requires |s1| >= 1
    ensures WindowFound(s1, s2) <==> exists k :: StartsAnagram(s1, s2, k)
  {
    var n := |s1|;
    if exists k :: StartsAnagram(s1, s2, k) {
      var k :| StartsAnagram(s1, s2, k);
      assert EndsAnagram(s1, s2, k + n - 1);
    }
    if WindowFound(s1, s2) {
      var right :| EndsAnagram(s1, s2, right);
      assert StartsAnagram(s1, s2, right + 1 - n);
    }
  }

  lemma LowercaseSlice(s: string, i: int, j: int)
    requires Lowercase(s) && 0 <= i <= j <= |s|
    ensures Lowercase(s[i..j])
  {
    assert forall k :: 0 <= k < j - i ==> s[i..j][k] == s[i + k];
  }

  /**
   * The window the loop holds after reading cell `right` is the one
   * `EndsAnagram` asks about, once it has reached `|s1|` cells.
   */
  lemma WindowAt(s1: string, s2: string, left: int, right: int)
    requires 0 <= right < |s2| && left == if right + 1 > |s1| then right + 1 - |s1| else 0
    ensures EndsAnagram(s1, s2, right) <==>
      right - left + 1 == |s1| && multiset(s2[left..right + 1]) == multiset(s1)
  {
  }

  /** The scan of the 26 counters: are they all zero? */
  method AllZero(freq: array<int>) returns (found: bool)
    requires freq.Length == 26
    ensures found <==> forall x :: 0 <= x < 26 ==> freq[x] == 0
  {
    found := true;
    for i := 0 to 26
      invariant found <==> forall x :: 0 <= x < i ==> freq[x] == 0
    {
      if freq[i] != 0 {
        found := false;
        break;
      }
    }
  }

  /**
   * One step of the window: cell `right` enters it, and when that makes
   * it longer than `n`, cell `left` leaves it.
   */
  method Slide(freq: array<int>, ghost s1: string, s2: string, n: int, left: int, right: int)
    returns (left': int)
    requires Lowercase(s2) && n == |s1| && 0 <= left <= right < |s2|
    requires right - left <= n
    requires freq[..] == Balance(s1, s2[left..right])
    modifies freq
    ensures left' == if right - left + 1 > n then left + 1 else left
    ensures freq[..] == Balance(s1, s2[left'..right + 1])
  {
    var c := s2[right];
    assert s2[left..right + 1] == s2[left..right] + [c];
    WindowGrows(s1, s2[left..right], c);
    freq[Index(c)] := freq[Index(c)] - 1;
    assert freq[..] == Balance(s1, s2[left..right + 1]);
    left' := left;
    if right - left + 1 > n {
      var d := s2[left];
      ghost var w := s2[left + 1..right + 1];
      assert s2[left..right + 1] == [d] + w;
      WindowShrinks(s1, d, w);
      freq[Index(d)] := freq[Index(d)] + 1;
      assert freq[..] == Balance(s1, w);
      left' := left + 1;
    }
  }

  /** With the counters of a full window all zero, `EndsAnagram` holds at `right`, and only then. */
  lemma Decide(s1: string, s2: string, left: int, right: int, freq: seq<int>)
    requires Lowercase(s1) && Lowercase(s2)
    requires 0 <= left && 0 <= right < |s2| && right - left + 1 == |s1|
    requires freq == Balance(s1, s2[left..right + 1])
    ensures EndsAnagram(s1, s2, right) <==> forall x :: 0 <= x < 26 ==> freq[x] == 0
  {
    LowercaseSlice(s2, left, right + 1);
    CountsDecide(s1, s2[left..right + 1]);
  }

  /**
   * `checkInclusion(s1, s2)` on lower-case strings: true exactly when a
   * window of `s2` ending at some cell is a permutation of `s1`.
   */
  method CheckInclusion(s1: string, s2: string) returns (r: bool)
    requires Lowercase(s1) && Lowercase(s2)
    ensures r <==> WindowFound(s1, s2)
  {
    var n, m := |s1|, |s2|;
    if n > m {
      WindowFoundMeans(s1, s2);
      return false;
    }
    var freq := new int[26](_ => 0);
    assert freq[..] == Balance([], []);
    for k := 0 to n
      invariant freq[..] == Balance(s1[..k], [])
    {
      var c := s1[k];
      assert s1[..k + 1] == s1[..k] + [c];
      CountMore(s1[..k], c, []);
      freq[Index(c)] := freq[Index(c)] + 1;
      assert freq[..] == Balance(s1[..k + 1], []);
    }
    assert s1[..n] == s1;
    var left := 0;
    assert s2[left..0] == [];
    for right := 0 to m
      invariant left == if right > n then right - n else 0
      invariant freq[..] == Balance(s1, s2[left..right])
      invariant forall q :: 0 <= q < right ==> !EndsAnagram(s1, s2, q)
    {
      left := Slide(freq, s1, s2, n, left, right);
      WindowAt(s1, s2, left, right);
      if right - left + 1 == n {
        var found := AllZero(freq);
        Decide(s1, s2, left, right, freq[..]);
        if found {
          return true;
        }
      }
    }
    return false;
  }
}
