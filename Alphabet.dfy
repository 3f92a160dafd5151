/**
 * The character classes of a formula, the legality check and the two operator
 * priority tables (in-stack and incoming) used by the infix-to-postfix converter.
 */
module Alphabet {
  import opened Wrappers

  /** A logic variable is one lowercase ASCII letter. */
  predicate IsLetter(c: char) {
    'a' <= c <= 'z'
  }

  predicate IsOperator(c: char) {
    c == '+' || c == '*' || c == '!'
  }

  /** The legal alphabet: the 26 letters, the three operators, both parentheses and space. */
  predicate IsLegalChar(c: char) {
    IsLetter(c) || IsOperator(c) || c == '(' || c == ')' || c == ' '
  }

  /** Scans the string and rejects it at the first character outside the alphabet. */
  function IsLegal(s: string): (b: bool)
    ensures b <==> forall i :: 0 <= i < |s| ==> IsLegalChar(s[i])
  {
    if |s| == 0 then true
    else if !IsLegalChar(s[0]) then false
    else
      var rest := IsLegal(s[1..]);
      assert forall i :: 1 <= i < |s| ==> s[i] == s[1..][i - 1];
      rest
  }

  /** Priority of a token while it sits on the operator stack; None when the table has no entry. */
  function Isp(c: char): (p: Option<int>)
    ensures p.Some? <==> IsOperator(c) || c == '(' || c == ')'
    ensures c == '(' ==> p == Some(1)
  {
    match c
    case '+' => Some(3)
    case '*' => Some(5)
    case '!' => Some(6)
    case '(' => Some(1)
    case ')' => Some(10)
    case _ => None
  }

  /** Priority of a token arriving from the input; None when the table has no entry. */
  function Icp(c: char): (p: Option<int>)
    ensures p.Some? <==> IsOperator(c) || c == '(' || c == ')'
    ensures c == '(' ==> p == Some(10)
  {
    match c
    case '+' => Some(2)
    case '*' => Some(4)
    case '!' => Some(7)
    case '(' => Some(10)
    case ')' => Some(1)
    case _ => None
  }

  /** The tokens of `s` that belong to `vars`, in their order in `s`. */
  function Operands(s: seq<char>, vars: seq<char>): seq<char> {
    if |s| == 0 then []
    else Operands(s[..|s| - 1], vars) + (if s[|s| - 1] in vars then [s[|s| - 1]] else [])
  }

  lemma {:induction false} OperandsAppend(a: seq<char>, b: seq<char>, vars: seq<char>)
    ensures Operands(a + b, vars) == Operands(a, vars) + Operands(b, vars)
    decreases |b|
  {
    if |b| == 0 {
      assert a + b == a;
    } else {
      var b' := b[..|b| - 1];
      assert (a + b)[..|a + b| - 1] == a + b';
      OperandsAppend(a, b', vars);
    }
  }

  /** Characters the preprocessor may add or remove: NOT, AND and space. */
  predicate IsAdjustable(c: char) {
    c == '!' || c == '*' || c == ' '
  }

  /** The string with every NOT, AND and space removed, everything else in order. */
  function Skeleton(s: seq<char>): seq<char> {
    if |s| == 0 then []
    else Skeleton(s[..|s| - 1]) + (if IsAdjustable(s[|s| - 1]) then [] else [s[|s| - 1]])
  }

  lemma {:induction false} SkeletonAppend(a: seq<char>, b: seq<char>)
    ensures Skeleton(a + b) == Skeleton(a) + Skeleton(b)
    decreases |b|
  {
    if |b| == 0 {
      assert a + b == a;
    } else {
      var b' := b[..|b| - 1];
      assert (a + b)[..|a + b| - 1] == a + b';
      SkeletonAppend(a, b');
    }
  }
}
