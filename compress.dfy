// In-place run-length compression of leetcode/443.cpp: every maximal run
// of one character is written as the character, followed by the decimal
// digits of the run's length when that length is more than one. The
// encoding is written over the front of the input and its length returned.
module Compress {

  predicate IsDigit(ch: char)
  {
    '0' <= ch <= '9'
  }

  function DigitChar(d: nat): (r: char)
    requires d < 10
    ensures IsDigit(r)
  {
    ('0' as int + d) as char
  }

  /** `to_string(k)`: the decimal digits of `k`, most significant first. */
  function Digits(k: nat): (r: seq<char>)
    ensures |r| >= 1 && forall t :: 0 <= t < |r| ==> IsDigit(r[t])
  {
    if k < 10 then [DigitChar(k)] else Digits(k / 10) + [DigitChar(k % 10)]
  }

  /** The number a string of decimal digits stands for. */
  function Value(d: seq<char>): nat
  {
    if d == [] then 0 else Value(d[..|d| - 1]) * 10 + DigitValue(d[|d| - 1])
  }

  /** The value of a decimal digit (other characters count as zero). */
  function DigitValue(ch: char): (r: nat)
    ensures r < 10 && (IsDigit(ch) ==> DigitChar(r) == ch)
  {
    if IsDigit(ch) then ch as int - '0' as int else 0
  }

  /** Reading back the digits of `k` gives `k`. */
  lemma {:induction false} ValueOfDigits(k: nat)
    ensures Value(Digits(k)) == k
  {
    if k >= 10 {
      var d := Digits(k);
      assert d[..|d| - 1] == Digits(k / 10);
      ValueOfDigits(k / 10);
    }
  }

  /** A run of two or more cells has room for its character and its count. */
  lemma {:induction false} DigitsShort(k: nat)
    requires k >= 2
    ensures |Digits(k)| < k
  {
    if k >= 10 {
      if k / 10 >= 2 {
        DigitsShort(k / 10);
      }
    }
  }

  /**
   * The end of the run of `s[i]` that has been seen to reach `j`: the first
   * cell from `j` on that differs from `s[i]`, or `|s|`.
   */
  function RunEnd(s: seq<char>, i: nat, j: nat): (r: nat)
    requires i < j <= |s|
    requires forall t :: i <= t < j ==> s[t] == s[i]
    ensures j <= r <= |s|
    ensures forall t :: i <= t < r ==> s[t] == s[i]
    ensures r < |s| ==> s[r] != s[i]
    decreases |s| - j
  {
    if j < |s| && s[j] == s[i] then RunEnd(s, i, j + 1) else j
  }

  /** What a run of `k` copies of `c` is written as. */
  function RunCode(c: char, k: nat): seq<char>
  {
    [c] + (if k > 1 then Digits(k) else [])
  }

  /** The encoding of the runs of `s` from `i` on. */
  function Encode(s: seq<char>, i: nat): seq<char>
    requires i <= |s|
    decreases |s| - i
  {
    if i == |s| then []
    else
      var j := RunEnd(s, i, i + 1);
      RunCode(s[i], j - i) + Encode(s, j)
  }

  /** The encoding is never longer than what it encodes, so it fits in place. */
  lemma {:induction false} EncodeFits(s: seq<char>, i: nat)
    requires i <= |s|
    ensures |Encode(s, i)| <= |s| - i
    decreases |s| - i
  {
    if i < |s| {
      var j := RunEnd(s, i, i + 1);
      if j - i > 1 {
        DigitsShort(j - i);
      }
      EncodeFits(s, j);
    }
  }

  /** The first run of the text from `i` on, and the encoding of the rest. */
  lemma EncodeStep(s: seq<char>, i: nat, j: nat)
    requires i < j <= |s| && forall t :: i <= t < j ==> s[t] == s[i]
    requires j == RunEnd(s, i, i + 1)
    ensures Encode(s, i) == RunCode(s[i], j - i) + Encode(s, j)
  {
  }

  /** `k` copies of `c`. */
  function Repeat(c: char, k: nat): (r: seq<char>)
    ensures |r| == k && forall t :: 0 <= t < k ==> r[t] == c
  {
    if k == 0 then [] else [c] + Repeat(c, k - 1)
  }

  /** How many digits `t` starts with. */
  function DigitSpan(t: seq<char>): (n: nat)
    ensures n <= |t| && forall p :: 0 <= p < n ==> IsDigit(t[p])
  {
    if t != [] && IsDigit(t[0]) then 1 + DigitSpan(t[1..]) else 0
  }

  /**
   * Expands an encoding: each character is repeated as often as the digits
   * after it say, or once when no digits follow.
   */
  function Decode(t: seq<char>): seq<char>
    decreases |t|
  {
    if t == [] then []
    else
      var n := DigitSpan(t[1..]);
      var k := if n == 0 then 1 else Value(t[1..1 + n]);
      Repeat(t[0], k) + Decode(t[1 + n..])
  }

  ghost predicate NoDigits(s: seq<char>)
  {
    forall t :: 0 <= t < |s| ==> !IsDigit(s[t])
  }

  /** The digits of a count end where the next encoded character begins. */
  lemma {:induction false} SpanOfDigits(d: seq<char>, rest: seq<char>)
    requires forall t :: 0 <= t < |d| ==> IsDigit(d[t])
    requires rest == [] || !IsDigit(rest[0])
    ensures DigitSpan(d + rest) == |d|
  {
    if d == [] {
      assert d + rest == rest;
    } else {
      assert (d + rest)[1..] == d[1..] + rest;
      SpanOfDigits(d[1..], rest);
    }
  }

  /** Decoding takes the first character with the count that follows it. */
  lemma DecodeStep(t: seq<char>, n: nat, k: nat)
    requires t != [] && n == DigitSpan(t[1..])
    requires k == if n == 0 then 1 else Value(t[1..1 + n])
    ensures Decode(t) == Repeat(t[0], k) + Decode(t[1 + n..])
  {
  }

  /** One run, decoded from the front of an encoding. */
  lemma DecodeRun(c: char, k: nat, rest: seq<char>)
    requires k >= 1 && !IsDigit(c)
    requires rest == [] || !IsDigit(rest[0])
    ensures Decode(RunCode(c, k) + rest) == Repeat(c, k) + Decode(rest)
  {
    if k > 1 {
      DecodeLong(c, k, rest);
    } else {
      var t := RunCode(c, k) + rest;
      assert t == [c] + rest;
      assert t[1..] == rest;
      DecodeStep(t, 0, 1);
    }
  }

  lemma DecodeLong(c: char, k: nat, rest: seq<char>)
    requires k > 1 && !IsDigit(c)
    requires rest == [] || !IsDigit(rest[0])
    ensures Decode([c] + Digits(k) + rest) == Repeat(c, k) + Decode(rest)
  {
    var d := Digits(k);
    var t := [c] + d + rest;
    assert t[1..] == d + rest;
    SpanOfDigits(d, rest);
    assert t[1 + |d|..] == rest;
    assert t[1..1 + |d|] == d;
    ValueOfDigits(k);
    DecodeStep(t, |d|, k);
  }

  /** An encoding starts with the character of its first run. */
  lemma EncodeHead(s: seq<char>, j: nat)
    requires j < |s|
    ensures Encode(s, j) != [] && Encode(s, j)[0] == s[j]
  {
    var e := RunEnd(s, j, j + 1);
    EncodeStep(s, j, e);
  }

  /** The cells from `i` on are the run up to `j`, then the rest. */
  lemma RunIsRepeat(s: seq<char>, i: nat, j: nat)
    requires i < j <= |s| && forall t :: i <= t < j ==> s[t] == s[i]
    ensures s[i..] == Repeat(s[i], j - i) + s[j..]
  {
    var r := Repeat(s[i], j - i) + s[j..];
    assert forall t :: 0 <= t < |r| ==> r[t] == s[i..][t];
  }

  /**
   * When the text has no digit characters of its own, decoding the
   * encoding gives the text back: the encoding loses nothing.
   */
  lemma {:induction false} DecodeEncode(s: seq<char>, i: nat)
    requires i <= |s| && NoDigits(s)
    ensures Decode(Encode(s, i)) == s[i..]
    decreases |s| - i
  {
    if i < |s| {
      var j := RunEnd(s, i, i + 1);
      var rest := Encode(s, j);
      DecodeEncode(s, j);
      if j < |s| {
        EncodeHead(s, j);
      }
      EncodeStep(s, i, j);
      DecodeRun(s[i], j - i, rest);
      RunIsRepeat(s, i, j);
    }
  }

  /** `"aabccc"` is written as `"a2bc3"`. */
  lemma Sample()
    ensures Encode("aabccc", 0) == "a2bc3"
  {
    var s := "aabccc";
    assert RunEnd(s, 0, 1) == 2;
    assert RunEnd(s, 2, 3) == 3;
    assert RunEnd(s, 3, 4) == 6;
    assert Encode(s, 6) == [];
    assert Digits(2) == "2" && Digits(3) == "3";
  }

  /**
   * `compress(chars)`: the encoding of the old contents is written over
   * the front of the array and its length returned; the cells after it
   * keep their old values.
   */
  method Compress(a: array<char>) returns (ans: int)
    modifies a
    ensures 0 <= ans <= a.Length
    ensures a[..ans] == Encode(old(a[..]), 0)
    ensures forall t :: ans <= t < a.Length ==> a[t] == old(a[t])
  {
    ghost var A := a[..];
    ghost var E := Encode(A, 0);
    ans := 0;
    var n := a.Length;
    var i := 0;
    while i < n
      invariant 0 <= ans <= i <= n
      invariant a[..ans] + Encode(A, i) == E
      invariant forall t :: ans <= t < n ==> a[t] == A[t]
      decreases n - i
    {
      var j := i + 1;
      while j < n && a[j] == a[i]
        invariant i < j <= n
        invariant forall t :: i <= t < j ==> A[t] == A[i]
        invariant RunEnd(A, i, i + 1) == RunEnd(A, i, j)
      {
        j := j + 1;
      }
      assert j == RunEnd(A, i, i + 1);
      var c := a[i];
      assert c == A[i];
      ghost var prefix := a[..ans];
      ghost var code := RunCode(c, j - i);
      CodeFits(c, j - i);
      ans := WriteRun(a, ans, c, j - i);
      ghost var rest := Encode(A, j);
      EncodeStep(A, i, j);
      Regroup(prefix, code, rest);
      i := j;
    }
  }

  /** A run's code is no longer than the run. */
  lemma CodeFits(c: char, k: nat)
    requires k >= 1
    ensures |RunCode(c, k)| <= k
  {
    if k > 1 {
      DigitsShort(k);
    }
  }

  lemma Regroup(x: seq<char>, y: seq<char>, z: seq<char>)
    ensures x + (y + z) == (x + y) + z
  {
  }

  /**
   * One run of `count` copies of `c`, written from `ans` on: the character,
   * then the digits of the count when it is more than one. Returns where
   * the next run goes.
   */
  method WriteRun(a: array<char>, ans: int, c: char, count: int) returns (next: int)
    requires 0 <= ans && 1 <= count && ans + |RunCode(c, count)| <= a.Length
    modifies a
    ensures next == ans + |RunCode(c, count)|
    ensures a[..next] == old(a[..ans]) + RunCode(c, count)
    ensures forall t :: next <= t < a.Length ==> a[t] == old(a[t])
  {
    ghost var prefix := a[..ans];
    ghost var code := RunCode(c, count);
    a[ans] := c;
    next := ans + 1;
    assert a[..next] == prefix + code[..1];
    if count > 1 {
      var cnt := Digits(count);
      for k := 0 to |cnt|
        invariant next == ans + 1 + k
        invariant a[..next] == prefix + code[..1 + k]
        invariant forall t :: next <= t < a.Length ==> a[t] == old(a[t])
      {
        assert code[..2 + k] == code[..1 + k] + [cnt[k]];
        a[next] := cnt[k];
        next := next + 1;
      }
    }
    assert code[..|code|] == code;
  }
}
