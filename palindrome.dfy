// The alphanumeric palindrome test of leetcode/125.cpp: letters and digits
// are compared without regard to case, everything else is skipped.
module Palindrome {

  /** `isValid(ch)`: an ASCII letter or digit. */
  predicate IsValid(ch: char): (b: bool)
    ensures b ==> ch < 128 as char
    ensures b ==> IsLetter(ch) || '0' <= ch <= '9'
    ensures IsLetter(ch) || '0' <= ch <= '9' ==> b
  {
    'a' <= ch <= 'z' || 'A' <= ch <= 'Z' || '0' <= ch <= '9'
  }

  predicate IsLetter(ch: char)
  {
    'a' <= ch <= 'z' || 'A' <= ch <= 'Z'
  }

  /**
   * `islower(ch)`: a lower-case letter is returned as it is, any other
   * character is shifted by `'a' - 'A'`. The source applies it to letters
   * and digits only, so it is modelled on ASCII characters.
   */
  function Lower(ch: char): (r: char)
    requires ch < 128 as char
    ensures 'a' <= ch <= 'z' ==> r == ch
    ensures 'A' <= ch <= 'Z' ==> 'a' <= r <= 'z' && r as int - ch as int == 'a' as int - 'A' as int
    ensures '0' <= ch <= '9' ==> 'P' <= r <= 'Y'
  {
    if 'a' <= ch <= 'z' then ch else (ch as int - 'A' as int + 'a' as int) as char
  }

  /**
   * On letters and digits, `islower` identifies exactly the two cases of a
   * letter: digits land on codes that no letter reaches.
   */
  lemma LowerFoldsCase(x: char, y: char)
    requires IsValid(x) && IsValid(y)
    ensures Lower(x) == Lower(y) <==>
      x == y || (IsLetter(x) && IsLetter(y) && (x as int - y as int == 32 || y as int - x as int == 32))
  {
  }

  /** Upper-case letters become their lower-case letters, lower-case ones stay. */
  lemma LowerOnLetters(ch: char)
    requires IsLetter(ch)
    ensures 'a' <= Lower(ch) <= 'z'
    ensures 'A' <= ch <= 'Z' ==> Lower(ch) as int == ch as int + 32
    ensures 'a' <= ch <= 'z' ==> Lower(ch) == ch
  {
  }

  /** What one character contributes to the comparison: itself through `islower`, or nothing. */
  function Keep(ch: char): (r: string)
    ensures |r| <= 1
  {
    if IsValid(ch) then [Lower(ch)] else []
  }

  /** The characters `isPalindrome` compares: the letters and digits of `s`, through `islower`. */
  function Clean(s: string): (r: string)
    ensures |r| <= |s|
  {
    if s == [] then [] else Keep(s[0]) + Clean(s[1..])
  }

  ghost predicate IsPalindrome(t: string)
  {
    forall i :: 0 <= i < |t| ==> t[i] == t[|t| - 1 - i]
  }

  lemma {:induction false} CleanAppend(a: string, b: string)
    ensures Clean(a + b) == Clean(a) + Clean(b)
  {
    if a == [] {
      assert a + b == b;
    } else {
      var ab := a + b;
      assert ab[0] == a[0] && ab[1..] == a[1..] + b;
      CleanAppend(a[1..], b);
      calc {
        Clean(ab);
        Keep(a[0]) + Clean(a[1..] + b);
        Keep(a[0]) + (Clean(a[1..]) + Clean(b));
        (Keep(a[0]) + Clean(a[1..])) + Clean(b);
      }
    }
  }

  lemma CleanOne(ch: char)
    ensures Clean([ch]) == Keep(ch)
  {
    assert [ch][1..] == [];
  }

  /** A palindrome with ends added is one exactly when the ends agree. */
  lemma PalindromeEnds(x: char, m: string, y: char)
    ensures IsPalindrome([x] + m + [y]) <==> x == y && IsPalindrome(m)
  {
    var w := [x] + m + [y];
    if x == y && IsPalindrome(m) {
      forall i | 0 <= i < |w|
        ensures w[i] == w[|w| - 1 - i]
      {
        if 0 < i < |w| - 1 {
          assert w[i] == m[i - 1] && w[|w| - 1 - i] == m[|m| - 1 - (i - 1)];
        }
      }
    }
    if IsPalindrome(w) {
      assert w[0] == w[|w| - 1];
      forall i | 0 <= i < |m|
        ensures m[i] == m[|m| - 1 - i]
      {
        assert m[i] == w[i + 1] && m[|m| - 1 - i] == w[|w| - 1 - (i + 1)];
      }
    }
  }

  /** The part of `s` from `l` to `r` inclusive that is still to be compared. */
  function Window(s: string, l: int, r: int): string
    requires 0 <= l && -1 <= r < |s|
  {
    if l <= r then s[l..r + 1] else []
  }

  /** Dropping the first character of a window drops what it contributes. */
  lemma DropFirst(s: string, l: int, r: int)
    requires 0 <= l <= r < |s|
    ensures Clean(Window(s, l, r)) == Keep(s[l]) + Clean(Window(s, l + 1, r))
  {
    var w, rest := s[l..r + 1], Window(s, l + 1, r);
    assert w == [s[l]] + rest;
    CleanAppend([s[l]], rest);
    CleanOne(s[l]);
  }

  /** Dropping the last character of a window drops what it contributes. */
  lemma DropLast(s: string, l: int, r: int)
    requires 0 <= l <= r < |s|
    ensures Clean(Window(s, l, r)) == Clean(Window(s, l, r - 1)) + Keep(s[r])
  {
    var w, rest := s[l..r + 1], Window(s, l, r - 1);
    assert w == rest + [s[r]];
    CleanAppend(rest, [s[r]]);
    CleanOne(s[r]);
  }

  /** A character that is neither letter nor digit is skipped at the front of a window. */
  lemma SkipFirst(s: string, l: int, r: int)
    requires 0 <= l <= r < |s| && !IsValid(s[l])
    ensures Clean(Window(s, l, r)) == Clean(Window(s, l + 1, r))
  {
    DropFirst(s, l, r);
  }

  /** A character that is neither letter nor digit is skipped at the back of a window. */
  lemma SkipLast(s: string, l: int, r: int)
    requires 0 <= l <= r < |s| && !IsValid(s[r])
    ensures Clean(Window(s, l, r)) == Clean(Window(s, l, r - 1))
  {
    DropLast(s, l, r);
  }

  /** Both ends of a window of at least two characters. */
  lemma DropBoth(s: string, l: int, r: int)
    requires 0 <= l < r < |s|
    ensures Clean(Window(s, l, r)) == Keep(s[l]) + Clean(Window(s, l + 1, r - 1)) + Keep(s[r])
  {
    var w, m := s[l..r + 1], Window(s, l + 1, r - 1);
    assert w == [s[l]] + (m + [s[r]]);
    CleanAppend([s[l]], m + [s[r]]);
    CleanAppend(m, [s[r]]);
    CleanOne(s[l]);
    CleanOne(s[r]);
  }

  /**
   * With a letter or digit at both ends, a window compares to a palindrome
   * exactly when its ends agree after `islower` and what lies between them
   * does.
   */
  lemma CompareEnds(s: string, l: int, r: int)
    requires 0 <= l <= r < |s| && IsValid(s[l]) && IsValid(s[r])
    ensures IsPalindrome(Clean(Window(s, l, r))) <==>
      Lower(s[l]) == Lower(s[r]) && IsPalindrome(Clean(Window(s, l + 1, r - 1)))
  {
    if l < r {
      DropBoth(s, l, r);
      PalindromeEnds(Lower(s[l]), Clean(Window(s, l + 1, r - 1)), Lower(s[r]));
    } else {
      DropFirst(s, l, r);
      assert Clean(Window(s, l, r)) == [Lower(s[l])];
    }
  }

  /**
   * `isPalindrome(s)`: two pointers skip characters that are not letters
   * or digits and compare the rest pairwise from both ends. True exactly
   * when the cleaned string reads the same backwards.
   */
  method IsPalindromeTest(s: string) returns (b: bool)
    ensures b <==> IsPalindrome(Clean(s))
  {
    var n := |s|;
    var l, r := 0, n - 1;
    assert Window(s, l, r) == s;
    ghost var verdict := IsPalindrome(Clean(s));
    while l <= r
      invariant 0 <= l <= r + 2 && -1 <= r < n
      invariant verdict <==> IsPalindrome(Clean(Window(s, l, r)))
      decreases r - l
    {
      if !IsValid(s[l]) {
        SkipFirst(s, l, r);
        l := l + 1;
      } else if !IsValid(s[r]) {
        SkipLast(s, l, r);
        r := r - 1;
      } else {
        CompareEnds(s, l, r);
        if Lower(s[l]) != Lower(s[r]) {
          return false;
        }
        l, r := l + 1, r - 1;
      }
    }
    return true;
  }

  /** A string without letters or digits, the empty one included, leaves nothing to compare and passes. */
  lemma {:induction false} NothingToCompare(s: string)
    requires forall k :: 0 <= k < |s| ==> !IsValid(s[k])
    ensures Clean(s) == [] && IsPalindrome(Clean(s))
  {
    if s != [] {
      NothingToCompare(s[1..]);
    }
  }
}
