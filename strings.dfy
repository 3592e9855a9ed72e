/**
 * The string routines of AlgorithmArry.cs: longest common prefix, bracket
 * matching with a stack, and the two-pointer palindrome check. Strings are
 * sequences of characters; `StartsWith` is taken as ordinal prefix test.
 */
module Strings {
  import opened Wrappers

  /** `p` is a prefix of every string of `strs`. */
  predicate CommonPrefix(p: string, strs: seq<string>)
  {
    forall k :: 0 <= k < |strs| ==> p <= strs[k]
  }

  /**
   * `LongestCommonPrefix`: empty for no strings; otherwise the first string,
   * shortened by one character until each string in turn starts with it.
   * The result is a common prefix, and every common prefix is a prefix of it.
   */
  method LongestCommonPrefix(strs: seq<string>) returns (prefix: string)
    ensures strs == [] ==> prefix == ""
    ensures CommonPrefix(prefix, strs)
    ensures forall p :: CommonPrefix(p, strs) && strs != [] ==> p <= prefix
  {
    if |strs| == 0 {
      return "";
    }
    prefix := strs[0];
    for i := 0 to |strs|
      invariant prefix <= strs[0]
      invariant CommonPrefix(prefix, strs[..i])
      invariant forall p :: CommonPrefix(p, strs) ==> p <= prefix
    {
      var s := strs[i];
      while !(prefix <= s)
        invariant prefix <= strs[0]
        invariant CommonPrefix(prefix, strs[..i])
        invariant forall p :: CommonPrefix(p, strs) ==> p <= prefix
        decreases |prefix|
      {
        prefix := prefix[..|prefix| - 1];
      }
      assert strs[..i + 1] == strs[..i] + [s];
    }
    assert strs[..|strs|] == strs;
  }

  predicate IsOpener(c: char)
  {
    c == '(' || c == '{' || c == '['
  }

  /**
   * The closer `c` does not match the opener `top`. Only `)`, `}` and `]`
   * are checked: any other non-opening character matches every opener.
   */
  predicate Mismatch(c: char, top: char)
  {
    (c == ')' && top != '(') || (c == '}' && top != '{') || (c == ']' && top != '[')
  }

  /**
   * The stack (top last) after scanning `s` from `stack`, or `None` when the
   * scan returns false early: a non-opening character meets an empty stack,
   * or a closer does not match the opener it pops.
   */
  function Scan(stack: seq<char>, s: string): Option<seq<char>>
    decreases |s|
  {
    if s == [] then Some(stack)
    else
      var c := s[0];
      if IsOpener(c) then Scan(stack + [c], s[1..])
      else if stack == [] then None
      else if Mismatch(c, stack[|stack| - 1]) then None
      else Scan(stack[..|stack| - 1], s[1..])
  }

  /** `IsValidParentheses`: the scan never fails and ends with an empty stack. */
  predicate Valid(s: string)
  {
    Scan([], s) == Some([])
  }

  /** Scanning a concatenation scans the first part, then the second from where it left off. */
  lemma {:induction false} ScanAppend(stack: seq<char>, x: string, y: string)
    ensures Scan(stack, x + y) == match Scan(stack, x) case None => None case Some(t) => Scan(t, y)
    decreases |x|
  {
    if x != [] {
      assert (x + y)[0] == x[0] && (x + y)[1..] == x[1..] + y;
      var c := x[0];
      if IsOpener(c) {
        ScanAppend(stack + [c], x[1..], y);
      } else if stack != [] && !Mismatch(c, stack[|stack| - 1]) {
        ScanAppend(stack[..|stack| - 1], x[1..], y);
      }
    } else {
      assert x + y == y;
    }
  }

  /** A scan that succeeds from `stack` succeeds the same way with more openers underneath. */
  lemma {:induction false} ScanBelow(below: seq<char>, stack: seq<char>, s: string)
    requires Scan(stack, s).Some?
    ensures Scan(below + stack, s) == Some(below + Scan(stack, s).value)
    decreases |s|
  {
    if s != [] {
      var c := s[0];
      if IsOpener(c) {
        assert below + stack + [c] == below + (stack + [c]);
        ScanBelow(below, stack + [c], s[1..]);
      } else {
        assert (below + stack)[..|below + stack| - 1] == below + stack[..|stack| - 1];
        ScanBelow(below, stack[..|stack| - 1], s[1..]);
      }
    }
  }

  /** Two valid strings side by side form a valid string. */
  lemma ValidConcat(x: string, y: string)
    requires Valid(x) && Valid(y)
    ensures Valid(x + y)
  {
    ScanAppend([], x, y);
  }

  /** A valid string wrapped in a matching pair of brackets is valid. */
  lemma ValidWrap(open: char, close: char, x: string)
    requires (open, close) in {('(', ')'), ('{', '}'), ('[', ']')}
    requires Valid(x)
    ensures Valid([open] + x + [close])
  {
    ScanAppend([], [open], x + [close]);
    assert [open] + x + [close] == [open] + (x + [close]);
    assert Scan([], [open]) == Some([open]);
    ScanAppend([open], x, [close]);
    ScanBelow([open], [], x);
    assert [open] + [] == [open];
  }

  /** A string whose first character is not an opener is rejected at once. */
  lemma ClosingFirstRejected(s: string)
    requires s != [] && !IsOpener(s[0])
    ensures !Valid(s)
  {
  }

  /**
   * Unmatched closers are rejected, and so are openers left on the stack.
   */
  lemma RejectedExamples()
    ensures !Valid(")") && !Valid("(]") && !Valid("((")
  {
    assert Scan([], "(]") == Scan(['('], "]");
    assert "(("[1..] == "(" && "("[1..] == "";
    assert [] + ['('] == ['('] && ['('] + ['('] == ['(', '('];
    assert Scan([], "((") == Scan(['('], "(") == Scan(['(', '('], "");
  }

  /** Because any non-opening character pops, "(a" is accepted. */
  lemma LetterPops()
    ensures Valid("(a")
  {
    assert "(a"[1..] == "a" && "a"[1..] == "";
    assert [] + ['('] == ['('];
    assert Scan([], "(a") == Scan(['('], "a") == Scan([], "");
  }

  /** The demo input "({[]})" is accepted. */
  lemma DemoValid()
    ensures Valid("({[]})")
  {
    ValidWrap('[', ']', "");
    assert ['['] + "" + [']'] == "[]";
    ValidWrap('{', '}', "[]");
    assert ['{'] + "[]" + ['}'] == "{[]}";
    ValidWrap('(', ')', "{[]}");
    assert ['('] + "{[]}" + [')'] == "({[]})";
  }

  /** `IsValidParentheses`: the stack-based check. */
  method IsValidParentheses(s: string) returns (valid: bool)
    ensures valid == Valid(s)
  {
    var stack: seq<char> := [];
    for i := 0 to |s|
      invariant Scan([], s) == Scan(stack, s[i..])
    {
      var c := s[i];
      assert s[i..][0] == c && s[i..][1..] == s[i + 1..];
      if IsOpener(c) {
        stack := stack + [c];
      } else {
        if |stack| == 0 {
          return false;
        }
        var top := stack[|stack| - 1];
        stack := stack[..|stack| - 1];
        if (c == ')' && top != '(') || (c == '}' && top != '{') || (c == ']' && top != '[') {
          return false;
        }
      }
    }
    return |stack| == 0;
  }

  /** `IsPalindrome`: compare from both ends inwards; true when every mirrored pair agrees. */
  method IsPalindrome(s: string) returns (palindrome: bool)
    ensures palindrome <==> forall i :: 0 <= i < |s| ==> s[i] == s[|s| - 1 - i]
  {
    var left, right := 0, |s| - 1;
    while left < right
      invariant 0 <= left <= |s| && right == |s| - 1 - left
      invariant left <= right + 2
      invariant forall k :: 0 <= k < left ==> s[k] == s[|s| - 1 - k]
    {
      if s[left] != s[right] {
        return false;
      }
      left, right := left + 1, right - 1;
    }
    forall i | 0 <= i < |s|
      ensures s[i] == s[|s| - 1 - i]
    {
      if i >= left && |s| - 1 - i >= left {
        assert i == |s| - 1 - i;
      }
    }
    return true;
  }
}
