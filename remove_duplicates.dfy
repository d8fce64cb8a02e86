// `removeDuplicates` of leetcode/1047.cpp: the characters are pushed onto a
// stack in turn, and a character equal to the top of the stack pops it
// instead, so adjacent equal pairs vanish, including those that only meet
// once the pair between them has gone.
module RemoveDuplicates {

  /** No two neighbouring characters are equal. */
  ghost predicate NoAdjacentPair(s: string)
  {
    forall k :: 0 < k < |s| ==> s[k - 1] != s[k]
  }

  /** One character against the stack: pop on a match with the top, push otherwise. */
  function Push(stack: string, c: char): string
  {
    if |stack| > 0 && c == stack[|stack| - 1] then stack[..|stack| - 1] else stack + [c]
  }

  /** The stack after the characters of `t`, one after another. */
  function Process(stack: string, t: string): string
    decreases |t|
  {
    if t == [] then stack else Process(Push(stack, t[0]), t[1..])
  }

  /** A pop or a push keeps a stack free of adjacent pairs. */
  lemma PushKeeps(stack: string, c: char)
    requires NoAdjacentPair(stack)
    ensures NoAdjacentPair(Push(stack, c))
  {
  }

  /** The result of the stack run has no adjacent equal characters left. */
  lemma {:induction false} ProcessLeavesNoPair(stack: string, t: string)
    requires NoAdjacentPair(stack)
    ensures NoAdjacentPair(Process(stack, t))
    decreases |t|
  {
    if t != [] {
      PushKeeps(stack, t[0]);
      ProcessLeavesNoPair(Push(stack, t[0]), t[1..]);
    }
  }

  /**
   * Characters only ever leave in pairs: the stack ends no longer than it
   * started plus the input, and differs from that by an even number.
   */
  lemma {:induction false} ProcessLength(stack: string, t: string)
    ensures |Process(stack, t)| <= |stack| + |t|
    ensures (|stack| + |t| - |Process(stack, t)|) % 2 == 0
    decreases |t|
  {
    if t != [] {
      ProcessLength(Push(stack, t[0]), t[1..]);
    }
  }

  /**
   * On a stack whose contents followed by `t` have no adjacent pair,
   * nothing is ever popped: the characters of `t` are simply pushed.
   */
  lemma {:induction false} NothingToRemove(stack: string, t: string)
    requires NoAdjacentPair(stack + t)
    ensures Process(stack, t) == stack + t
    decreases |t|
  {
    if t != [] {
      var st := stack + t;
      assert st[|stack|] == t[0];
      if |stack| > 0 {
        assert st[|stack| - 1] == stack[|stack| - 1];
      }
      assert Push(stack, t[0]) == stack + [t[0]];
      assert (stack + [t[0]]) + t[1..] == st;
      NothingToRemove(stack + [t[0]], t[1..]);
    }
  }

  /** Removing duplicates from a result of `removeDuplicates` changes nothing. */
  lemma Idempotent(s: string)
    ensures Process([], Process([], s)) == Process([], s)
  {
    var r := Process([], s);
    ProcessLeavesNoPair([], s);
    assert [] + r == r;
    NothingToRemove([], r);
  }

  /** `"abbaca"`: `bb` goes, which brings the two `a`s together, and they go too. */
  lemma Sample()
    ensures Process([], "abbaca") == "ca"
  {
  }

  /**
   * `removeDuplicates(s)`: the stack run over `s`; no adjacent equal
   * characters are left, and the characters removed come in pairs.
   */
  method RemoveDuplicates(s: string) returns (res: string)
    ensures res == Process([], s)
    ensures NoAdjacentPair(res)
    ensures |res| <= |s| && |res| % 2 == |s| % 2
  {
    res := "";
    for k := 0 to |s|
      invariant Process(res, s[k..]) == Process([], s)
    {
      assert s[k..][1..] == s[k + 1..];
      if |res| > 0 && s[k] == res[|res| - 1] {
        res := res[..|res| - 1];
      } else {
        res := res + [s[k]];
      }
    }
    assert s[|s|..] == [];
    ProcessLeavesNoPair([], s);
    ProcessLength([], s);
  }
}
