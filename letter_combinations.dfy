// `letterCombinations` of leetcode/17.cpp: every string that takes, for
// each digit in turn, one of the letters printed on that key of a phone
// keypad. `solve` extends the shared `output` string one letter at a time,
// recurses, and takes the letter off again; `output` and `ans` are passed by
// reference in the source and are passed in and returned here.
module LetterCombinations {

  /** The letters on keys 0 to 9; keys 0 and 1 carry none. */
  const Keypad: seq<string> := ["", "", "abc", "def", "ghi", "jkl", "mno", "pqrs", "tuv", "wxyz"]

  ghost predicate AllDigits(digits: string)
  {
    forall j :: 0 <= j < |digits| ==> '0' <= digits[j] <= '9'
  }

  /** The letters of the key for digit `j`. */
  function Letters(digits: string, j: int): string
    requires 0 <= j < |digits| && '0' <= digits[j] <= '9'
  {
    Keypad[digits[j] as int - '0' as int]
  }

  /**
   * What `solve` appends to `ans` from `index` on with `prefix` already in
   * `output`: for each letter of the current key in turn, everything that
   * extends `prefix` by that letter.
   */
  function Expand(digits: string, prefix: string, index: nat): seq<string>
    requires AllDigits(digits)
    decreases |digits| - index, 1
  {
    if index >= |digits| then [prefix] else ExpandFrom(digits, prefix, index, 0)
  }

  /** The part of `Expand` that starts with letter `i` of the current key. */
  function ExpandFrom(digits: string, prefix: string, index: nat, i: nat): seq<string>
    requires AllDigits(digits) && index < |digits| && i <= |Letters(digits, index)|
    decreases |digits| - index, 0, |Letters(digits, index)| - i
  {
    var value := Letters(digits, index);
    if i == |value| then []
    else Expand(digits, prefix + [value[i]], index + 1) + ExpandFrom(digits, prefix, index, i + 1)
  }

  /** The product of the number of letters on the keys from `index` on. */
  function Choices(digits: string, index: nat): nat
    requires AllDigits(digits)
    decreases |digits| - index
  {
    if index >= |digits| then 1 else |Letters(digits, index)| * Choices(digits, index + 1)
  }

  /** There is one combination per choice of a letter for every key. */
  lemma {:induction false} ExpandCount(digits: string, prefix: string, index: nat)
    requires AllDigits(digits)
    ensures |Expand(digits, prefix, index)| == Choices(digits, index)
    decreases |digits| - index, 1
  {
    if index < |digits| {
      ExpandFromCount(digits, prefix, index, 0);
    }
  }

  lemma {:induction false} ExpandFromCount(digits: string, prefix: string, index: nat, i: nat)
    requires AllDigits(digits) && index < |digits| && i <= |Letters(digits, index)|
    ensures |ExpandFrom(digits, prefix, index, i)| == (|Letters(digits, index)| - i) * Choices(digits, index + 1)
    decreases |digits| - index, 0, |Letters(digits, index)| - i
  {
    var value := Letters(digits, index);
    if i < |value| {
      ExpandCount(digits, prefix + [value[i]], index + 1);
      ExpandFromCount(digits, prefix, index, i + 1);
      var c, r := Choices(digits, index + 1), |value| - i;
      assert r * c == c + (r - 1) * c;
    }
  }

  /**
   * `s` extends `prefix` by one letter of each key from `index` on, in
   * order.
   */
  ghost predicate Fits(digits: string, index: nat, prefix: string, s: string)
    requires AllDigits(digits) && index <= |digits|
  {
    |s| == |prefix| + |digits| - index && s[..|prefix|] == prefix &&
    forall j :: index <= j < |digits| ==> s[|prefix| + j - index] in Letters(digits, j)
  }

  /** Fixing the letter for key `index` moves it into the prefix. */
  lemma FitsStep(digits: string, index: nat, prefix: string, c: char, s: string)
    requires AllDigits(digits) && index < |digits| && c in Letters(digits, index)
    ensures Fits(digits, index + 1, prefix + [c], s) <==>
      Fits(digits, index, prefix, s) && |s| > |prefix| && s[|prefix|] == c
  {
    var p := prefix + [c];
    if Fits(digits, index + 1, p, s) {
      assert s[..|prefix|] == s[..|p|][..|prefix|];
      assert s[|prefix|] == s[..|p|][|prefix|];
      forall j | index <= j < |digits|
        ensures s[|prefix| + j - index] in Letters(digits, j)
      {
        if j > index {
          assert |p| + j - (index + 1) == |prefix| + j - index;
        }
      }
    }
    if Fits(digits, index, prefix, s) && |s| > |prefix| && s[|prefix|] == c {
      assert s[..|p|] == s[..|prefix|] + [s[|prefix|]];
      forall j | index + 1 <= j < |digits|
        ensures s[|p| + j - (index + 1)] in Letters(digits, j)
      {
        assert |p| + j - (index + 1) == |prefix| + j - index;
      }
    }
  }

  /** The combinations are exactly the strings that fit the keys. */
  lemma {:induction false} ExpandMembers(digits: string, prefix: string, index: nat, s: string)
    requires AllDigits(digits) && index <= |digits|
    ensures s in Expand(digits, prefix, index) <==> Fits(digits, index, prefix, s)
    decreases |digits| - index, 1
  {
    if index == |digits| {
      if Fits(digits, index, prefix, s) {
        assert s == s[..|prefix|];
      }
    } else {
      ExpandFromMembers(digits, prefix, index, 0, s);
    }
  }

  lemma {:induction false} ExpandFromMembers(digits: string, prefix: string, index: nat, i: nat, s: string)
    requires AllDigits(digits) && index < |digits| && i <= |Letters(digits, index)|
    ensures s in ExpandFrom(digits, prefix, index, i) <==>
      Fits(digits, index, prefix, s) && s[|prefix|] in Letters(digits, index)[i..]
    decreases |digits| - index, 0, |Letters(digits, index)| - i
  {
    var value := Letters(digits, index);
    if i < |value| {
      var c := value[i];
      ExpandMembers(digits, prefix + [c], index + 1, s);
      ExpandFromMembers(digits, prefix, index, i + 1, s);
      FitsStep(digits, index, prefix, c, s);
      assert value[i..] == [c] + value[i + 1..];
    }
  }

  /** The letters of every key are in alphabetical order. */
  lemma KeyLettersIncreasing(digits: string, j: int)
    requires 0 <= j < |digits| && '0' <= digits[j] <= '9'
    ensures forall a, b :: 0 <= a < b < |Letters(digits, j)| ==> Letters(digits, j)[a] < Letters(digits, j)[b]
  {
  }

  /** `x` comes before `y` in dictionary order: they agree up to a place where `x` has the smaller letter. */
  ghost predicate Precedes(x: string, y: string)
  {
    exists p :: 0 <= p < |x| && p < |y| && x[..p] == y[..p] && x[p] < y[p]
  }

  /** Each string of `ss` comes before every later one. */
  ghost predicate InOrder(ss: seq<string>)
  {
    forall a, b :: 0 <= a < b < |ss| ==> Precedes(ss[a], ss[b])
  }

  /** No string occurs twice in `ss`. */
  ghost predicate NoRepeats(ss: seq<string>)
  {
    forall a, b :: 0 <= a < b < |ss| ==> ss[a] != ss[b]
  }

  /** Strings in strict dictionary order are all different. */
  lemma OrderedNoRepeats(ss: seq<string>)
    requires InOrder(ss)
    ensures NoRepeats(ss)
  {
    forall a, b | 0 <= a < b < |ss|
      ensures ss[a] != ss[b]
    {
      var p :| 0 <= p < |ss[a]| && p < |ss[b]| && ss[a][..p] == ss[b][..p] && ss[a][p] < ss[b][p];
    }
  }

  /** The combinations come out in dictionary order. */
  lemma {:induction false} ExpandInOrder(digits: string, prefix: string, index: nat)
    requires AllDigits(digits)
    ensures InOrder(Expand(digits, prefix, index))
    decreases |digits| - index, 1
  {
    if index < |digits| {
      ExpandFromInOrder(digits, prefix, index, 0);
    }
  }

  /**
   * The block for a letter of the key comes before the blocks for the
   * later letters.
   */
  lemma {:induction false} ExpandFromInOrder(digits: string, prefix: string, index: nat, i: nat)
    requires AllDigits(digits) && index < |digits| && i <= |Letters(digits, index)|
    ensures InOrder(ExpandFrom(digits, prefix, index, i))
    decreases |digits| - index, 0, |Letters(digits, index)| - i
  {
    var value := Letters(digits, index);
    if i < |value| {
      var A := Expand(digits, prefix + [value[i]], index + 1);
      var B := ExpandFrom(digits, prefix, index, i + 1);
      ExpandInOrder(digits, prefix + [value[i]], index + 1);
      ExpandFromInOrder(digits, prefix, index, i + 1);
      forall x, y | x in A && y in B
        ensures Precedes(x, y)
      {
        BlockBefore(digits, prefix, index, i, x, y);
      }
      JoinInOrder(A, B);
    }
  }

  /**
   * A string of the block for letter `i` and one of the later blocks agree
   * on `prefix`, and the first has the smaller letter after it.
   */
  lemma BlockBefore(digits: string, prefix: string, index: nat, i: nat, x: string, y: string)
    requires AllDigits(digits) && index < |digits| && i < |Letters(digits, index)|
    requires x in Expand(digits, prefix + [Letters(digits, index)[i]], index + 1)
    requires y in ExpandFrom(digits, prefix, index, i + 1)
    ensures Precedes(x, y)
  {
    var value := Letters(digits, index);
    var c := value[i];
    KeyLettersIncreasing(digits, index);
    ExpandMembers(digits, prefix + [c], index + 1, x);
    FitsStep(digits, index, prefix, c, x);
    ExpandFromMembers(digits, prefix, index, i + 1, y);
    var n := |prefix|;
    assert y[n] in value[i + 1..];
    assert x[..n] == y[..n] && x[n] < y[n];
  }

  /** Two ordered runs, the first wholly before the second, make one ordered run. */
  lemma JoinInOrder(A: seq<string>, B: seq<string>)
    requires InOrder(A) && InOrder(B)
    requires forall x, y :: x in A && y in B ==> Precedes(x, y)
    ensures InOrder(A + B)
  {
    var AB := A + B;
    forall a, b | 0 <= a < b < |AB|
      ensures Precedes(AB[a], AB[b])
    {
      if b < |A| {
        assert AB[a] == A[a] && AB[b] == A[b];
      } else if a >= |A| {
        assert AB[a] == B[a - |A|] && AB[b] == B[b - |A|];
      } else {
        assert AB[a] == A[a] && AB[b] == B[b - |A|];
        assert A[a] in A && B[b - |A|] in B;
      }
    }
  }

  /**
   * `solve(digits, output, index, ans, map)`: appends to `ans` every
   * combination that extends `output` from key `index` on, and gives
   * `output` back as it found it.
   */
  method Solve(digits: string, output: string, index: nat, ans: seq<string>)
    returns (output': string, ans': seq<string>)
    requires AllDigits(digits)
    ensures output' == output
    ensures ans' == ans + Expand(digits, output, index)
    decreases |digits| - index
  {
    if index >= |digits| {
      return output, ans + [output];
    }
    var number := digits[index] as int - '0' as int;
    var value := Keypad[number];
    output', ans' := output, ans;
    for i := 0 to |value|
      invariant output' == output
      invariant ans' + ExpandFrom(digits, output, index, i) == ans + ExpandFrom(digits, output, index, 0)
    {
      ghost var before := ans';
      output' := output' + [value[i]];
      output', ans' := Solve(digits, output', index + 1, ans');
      output' := output'[..|output'| - 1];
      assert before + ExpandFrom(digits, output, index, i)
        == (before + Expand(digits, output + [value[i]], index + 1)) + ExpandFrom(digits, output, index, i + 1);
    }
  }

  /**
   * `letterCombinations(digits)`: the strings with one letter from the key
   * of each digit, in that order, one per choice of letters.
   */
  method LetterCombinationsOf(digits: string) returns (ans: seq<string>)
    requires AllDigits(digits)
    ensures ans == Expand(digits, "", 0)
    ensures |ans| == Choices(digits, 0)
    ensures forall s :: s in ans <==> |s| == |digits| && forall j :: 0 <= j < |digits| ==> s[j] in Letters(digits, j)
    ensures InOrder(ans) && NoRepeats(ans)
  {
    var output := "";
    output, ans := Solve(digits, output, 0, []);
    ExpandCount(digits, "", 0);
    ExpandInOrder(digits, "", 0);
    OrderedNoRepeats(ans);
    forall s
      ensures s in ans <==> |s| == |digits| && forall j :: 0 <= j < |digits| ==> s[j] in Letters(digits, j)
    {
      ExpandMembers(digits, "", 0, s);
    }
  }

  /** No digits: the one empty combination. */
  lemma NoDigits()
    ensures Expand("", "", 0) == [""]
  {
  }

  /** A key without letters, 0 or 1, leaves no combination at all. */
  lemma {:induction false} BlankKey(digits: string, index: nat, j: nat)
    requires AllDigits(digits) && index <= j < |digits| && digits[j] in "01"
    ensures Choices(digits, index) == 0
    decreases j - index
  {
    if index < j {
      BlankKey(digits, index + 1, j);
    }
  }

  /** After a first letter, the key of 3 adds its letters in order. */
  lemma SampleTail(c: char)
    ensures Expand("23", [c], 1) == [[c, 'd'], [c, 'e'], [c, 'f']]
  {
    var v := Letters("23", 1);
    assert v == "def";
    assert [c] + [v[0]] == [c, 'd'] && [c] + [v[1]] == [c, 'e'] && [c] + [v[2]] == [c, 'f'];
    assert ExpandFrom("23", [c], 1, 3) == [];
    assert ExpandFrom("23", [c], 1, 2) == [[c, 'f']];
    assert ExpandFrom("23", [c], 1, 1) == [[c, 'e'], [c, 'f']];
  }

  /** `"23"` gives the nine combinations in keypad order. */
  lemma Sample()
    ensures Expand("23", "", 0) == ["ad", "ae", "af", "bd", "be", "bf", "cd", "ce", "cf"]
  {
    var v := Letters("23", 0);
    assert v == "abc";
    assert "" + [v[0]] == ['a'] && "" + [v[1]] == ['b'] && "" + [v[2]] == ['c'];
    SampleTail('a');
    SampleTail('b');
    SampleTail('c');
    assert ExpandFrom("23", "", 0, 3) == [];
    assert ExpandFrom("23", "", 0, 2) == ["cd", "ce", "cf"];
    assert ExpandFrom("23", "", 0, 1) == ["bd", "be", "bf", "cd", "ce", "cf"];
  }
}
