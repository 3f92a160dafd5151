/**
 * Infix-to-postfix conversion by operator precedence. A variable goes straight to the
 * output; any other token first pops to the output every operator whose in-stack
 * priority is at least the token's incoming priority, then discards a `(` left on top
 * of the stack, then is pushed unless it is `)`. At the end the stack is emptied onto
 * the output. The stack top is the last element of the sequence.
 */
module Postfix {
  import opened Wrappers
  import opened Sequences
  import opened Alphabet
  import opened Extraction
  import opened Preprocessing

  /**
   * The popping loop for arriving token `c`. A priority without a table entry cannot be
   * compared with a number, and the conversion fails.
   */
  function PopWhile(c: char, stack: seq<char>, out: seq<char>): Result<(seq<char>, seq<char>)>
    decreases |stack|
  {
    if |stack| == 0 then Success((stack, out))
    else
      match (Icp(c), Isp(stack[|stack| - 1]))
      case (Some(incoming), Some(inStack)) =>
        if incoming <= inStack then PopWhile(c, stack[..|stack| - 1], out + [stack[|stack| - 1]])
        else Success((stack, out))
      case _ => Failure(PriorityUndefined)
  }

  /** One token of the conversion. */
  function Shunt(c: char, vars: seq<char>, stack: seq<char>, out: seq<char>): Result<(seq<char>, seq<char>)> {
    if c in vars then Success((stack, out + [c]))
    else
      var popped :- PopWhile(c, stack, out);
      var st := popped.0;
      var st' := if |st| != 0 && st[|st| - 1] == '(' then st[..|st| - 1] else st;
      Success((if c != ')' then st' + [c] else st', popped.1))
  }

  /** The stack in popping order. */
  function Reverse(s: seq<char>): seq<char> {
    if |s| == 0 then [] else [s[|s| - 1]] + Reverse(s[..|s| - 1])
  }

  /** Converts the remaining tokens from the given stack and output, then drains the stack. */
  function Convert(tokens: seq<char>, vars: seq<char>, stack: seq<char>, out: seq<char>): Result<seq<char>>
    decreases |tokens|
  {
    if |tokens| == 0 then Success(out + Reverse(stack))
    else
      var next :- Shunt(tokens[0], vars, stack, out);
      Convert(tokens[1..], vars, next.0, next.1)
  }

  /** The postfix form of a preprocessed string over the given variables. */
  function ToPostfix(processed: string, vars: seq<char>): Result<seq<char>> {
    Convert(processed, vars, [], [])
  }

  /** The first three stages composed: variables, preprocessing, conversion. */
  function PostfixOf(origin: string): Result<seq<char>> {
    var processed :- Preprocess(origin);
    ToPostfix(processed, Variables(origin))
  }

  /**
   * Bookkeeping of a conversion that has read `pre`: the variables are in the output in
   * their input order and never on the stack; every token other than a parenthesis is
   * either in the output or on the stack; `)` is nowhere; `(` is only ever lost.
   */
  ghost predicate Accounted(pre: seq<char>, stack: seq<char>, out: seq<char>, vars: seq<char>) {
    && Operands(out, vars) == Operands(pre, vars)
    && (forall c :: c in stack ==> c !in vars)
    && (forall c :: c != '(' && c != ')' ==> multiset(out)[c] + multiset(stack)[c] == multiset(pre)[c])
    && ')' !in stack && ')' !in out
    && multiset(out)['('] + multiset(stack)['('] <= multiset(pre)['(']
  }

  lemma {:induction false} PopWhileAccounted(c: char, pre: seq<char>, stack: seq<char>, out: seq<char>, vars: seq<char>)
    requires Accounted(pre, stack, out, vars)
    requires PopWhile(c, stack, out).Success?
    ensures var r := PopWhile(c, stack, out).value; Accounted(pre, r.0, r.1, vars)
    decreases |stack|
  {
    if |stack| != 0 && PopWhile(c, stack, out) != Success((stack, out)) {
      var top := stack[|stack| - 1];
      var rest := stack[..|stack| - 1];
      assert stack == rest + [top];
      assert top in stack;
      assert Operands(out + [top], vars) == Operands(out, vars) by {
        assert (out + [top])[..|out|] == out;
      }
      assert Accounted(pre, rest, out + [top], vars);
      PopWhileAccounted(c, pre, rest, out + [top], vars);
    }
  }

  lemma EmitAccounted(c: char, pre: seq<char>, stack: seq<char>, out: seq<char>, vars: seq<char>)
    requires c in vars && ')' !in vars
    requires Accounted(pre, stack, out, vars)
    ensures Accounted(pre + [c], stack, out + [c], vars)
  {
    assert (pre + [c])[..|pre|] == pre;
    assert (out + [c])[..|out|] == out;
  }

  lemma DiscardOpenAccounted(pre: seq<char>, stack: seq<char>, out: seq<char>, vars: seq<char>)
    requires Accounted(pre, stack, out, vars)
    requires |stack| != 0 && stack[|stack| - 1] == '('
    ensures Accounted(pre, stack[..|stack| - 1], out, vars)
  {
    assert stack == stack[..|stack| - 1] + ['('];
  }

  lemma PushAccounted(c: char, pre: seq<char>, stack: seq<char>, out: seq<char>, vars: seq<char>)
    requires c !in vars && c != ')'
    requires Accounted(pre, stack, out, vars)
    ensures Accounted(pre + [c], stack + [c], out, vars)
  {
    assert (pre + [c])[..|pre|] == pre;
  }

  lemma SkipCloseAccounted(pre: seq<char>, stack: seq<char>, out: seq<char>, vars: seq<char>)
    requires ')' !in vars
    requires Accounted(pre, stack, out, vars)
    ensures Accounted(pre + [')'], stack, out, vars)
  {
    assert (pre + [')'])[..|pre|] == pre;
  }

  lemma ShuntAccounted(c: char, pre: seq<char>, stack: seq<char>, out: seq<char>, vars: seq<char>)
    requires ')' !in vars
    requires Accounted(pre, stack, out, vars)
    requires Shunt(c, vars, stack, out).Success?
    ensures var r := Shunt(c, vars, stack, out).value; Accounted(pre + [c], r.0, r.1, vars)
  {
    if c in vars {
      EmitAccounted(c, pre, stack, out, vars);
    } else {
      PopWhileAccounted(c, pre, stack, out, vars);
      var popped := PopWhile(c, stack, out).value;
      var st := popped.0;
      var st' := st;
      if |st| != 0 && st[|st| - 1] == '(' {
        DiscardOpenAccounted(pre, st, popped.1, vars);
        st' := st[..|st| - 1];
      }
      if c != ')' {
        PushAccounted(c, pre, st', popped.1, vars);
      } else {
        SkipCloseAccounted(pre, st', popped.1, vars);
      }
    }
  }

  lemma {:induction false} ReverseFacts(s: seq<char>)
    ensures multiset(Reverse(s)) == multiset(s)
    ensures forall c :: c in Reverse(s) <==> c in s
  {
    if |s| != 0 {
      ReverseFacts(s[..|s| - 1]);
      assert s == s[..|s| - 1] + [s[|s| - 1]];
    }
  }

  lemma {:induction false} OperandsOfForeign(s: seq<char>, vars: seq<char>)
    requires forall c :: c in s ==> c !in vars
    ensures Operands(s, vars) == []
  {
    if |s| != 0 {
      assert s[|s| - 1] in s;
      OperandsOfForeign(s[..|s| - 1], vars);
    }
  }

  lemma DrainAccounted(pre: seq<char>, stack: seq<char>, out: seq<char>, vars: seq<char>)
    requires Accounted(pre, stack, out, vars)
    ensures Accounted(pre, [], out + Reverse(stack), vars)
  {
    ReverseFacts(stack);
    OperandsAppend(out, Reverse(stack), vars);
    OperandsOfForeign(Reverse(stack), vars);
  }

  lemma ConvertStep(tokens: seq<char>, vars: seq<char>, stack: seq<char>, out: seq<char>)
    requires |tokens| != 0
    requires Convert(tokens, vars, stack, out).Success?
    ensures Shunt(tokens[0], vars, stack, out).Success?
    ensures var next := Shunt(tokens[0], vars, stack, out).value;
      Convert(tokens, vars, stack, out) == Convert(tokens[1..], vars, next.0, next.1)
  {
  }

  lemma DrainResultAccounted(vars: seq<char>, pre: seq<char>, stack: seq<char>, out: seq<char>, q: seq<char>)
    requires Accounted(pre, stack, out, vars)
    requires Convert([], vars, stack, out) == Success(q)
    ensures Accounted(pre, [], q, vars)
  {
    DrainAccounted(pre, stack, out, vars);
  }

  lemma {:induction false} ConvertAccounted(tokens: seq<char>, vars: seq<char>, pre: seq<char>, stack: seq<char>, out: seq<char>, all: seq<char>, q: seq<char>)
    requires ')' !in vars
    requires all == pre + tokens
    requires Accounted(pre, stack, out, vars)
    requires Convert(tokens, vars, stack, out) == Success(q)
    ensures Accounted(all, [], q, vars)
    decreases |tokens|
  {
    if |tokens| == 0 {
      AppendEmpty(pre, tokens);
      DrainResultAccounted(vars, pre, stack, out, q);
    } else {
      assert Shunt(tokens[0], vars, stack, out).Success? by {
        ConvertStep(tokens, vars, stack, out);
      }
      var next := Shunt(tokens[0], vars, stack, out).value;
      assert Convert(tokens[1..], vars, next.0, next.1) == Success(q) by {
        ConvertStep(tokens, vars, stack, out);
      }
      assert Accounted(pre + [tokens[0]], next.0, next.1, vars) by {
        ShuntAccounted(tokens[0], pre, stack, out, vars);
      }
      ShiftFirst(pre, tokens);
      ConvertAccounted(tokens[1..], vars, pre + [tokens[0]], next.0, next.1, all, q);
    }
  }

  /**
   * The postfix output keeps the variables in their input order, holds every token other
   * than a parenthesis exactly as often as the input does, never holds `)`, and holds no
   * more `(` than the input.
   */
  lemma ToPostfixFacts(processed: string, vars: seq<char>)
    requires ')' !in vars
    requires ToPostfix(processed, vars).Success?
    ensures var q := ToPostfix(processed, vars).value;
      && Operands(q, vars) == Operands(processed, vars)
      && (forall c :: c != '(' && c != ')' ==> multiset(q)[c] == multiset(processed)[c])
      && ')' !in q
      && multiset(q)['('] <= multiset(processed)['(']
  {
    assert Accounted([], [], [], vars);
    ConvertAccounted(processed, vars, [], [], [], processed, ToPostfix(processed, vars).value);
  }

  lemma {:induction false} OperandsSkeleton(s: seq<char>, vars: seq<char>)
    requires PlainVars(vars)
    ensures Operands(Skeleton(s), vars) == Operands(s, vars)
  {
    if |s| != 0 {
      var init := s[..|s| - 1];
      var last := s[|s| - 1];
      OperandsSkeleton(init, vars);
      OperandsAppend(Skeleton(init), if IsAdjustable(last) then [] else [last], vars);
      assert [last][..0] == [];
    }
  }

  lemma {:induction false} SkeletonCount(s: seq<char>, c: char)
    requires !IsAdjustable(c)
    ensures multiset(Skeleton(s))[c] == multiset(s)[c]
  {
    if |s| != 0 {
      SkeletonCount(s[..|s| - 1], c);
      assert s == s[..|s| - 1] + [s[|s| - 1]];
    }
  }

  lemma StagesFacts(origin: string, vars: seq<char>, p: string, q: seq<char>)
    requires |origin| >= 1 && PlainVars(vars)
    requires p == Process(origin, vars)
    requires ToPostfix(p, vars) == Success(q)
    ensures Operands(q, vars) == Operands(origin, vars)
    ensures multiset(q)['+'] == multiset(origin)['+']
    ensures ')' !in q
  {
    assert Operands(q, vars) == Operands(p, vars) && multiset(q)['+'] == multiset(p)['+'] && ')' !in q by {
      ToPostfixFacts(p, vars);
    }
    assert Skeleton(p) == Skeleton(origin) by {
      ProcessSkeleton(origin, vars);
    }
    assert Operands(p, vars) == Operands(origin, vars) by {
      OperandsSkeleton(p, vars);
      OperandsSkeleton(origin, vars);
    }
    assert multiset(p)['+'] == multiset(origin)['+'] by {
      SkeletonCount(p, '+');
      SkeletonCount(origin, '+');
    }
  }

  /**
   * Across the first three stages, the variables reach the postfix form in the order in
   * which they occur in the origin, every OR of the origin reaches it exactly once, and
   * no `)` does.
   */
  lemma PostfixOfFacts(origin: string)
    requires PostfixOf(origin).Success?
    ensures var q := PostfixOf(origin).value;
      var vars := Variables(origin);
      && Operands(q, vars) == Operands(origin, vars)
      && multiset(q)['+'] == multiset(origin)['+']
      && ')' !in q
  {
    var vars := Variables(origin);
    assert PlainVars(vars) by {
      VariablesSpec(origin);
    }
    StagesFacts(origin, vars, Preprocess(origin).value, PostfixOf(origin).value);
  }

  /** Worked case: precedence puts the AND before the OR. */
  lemma ToPostfixPrecedence()
    ensures ToPostfix("a+b*c", "abc") == Success("abc*+")
  {
    PrecedenceHead();
    PrecedenceTail();
  }

  lemma PrecedenceHead()
    ensures Convert("a+b*c", "abc", [], []) == Convert("b*c", "abc", "+", "a")
  {
    var vars, t := "abc", "a+b*c";
    assert Convert(t, vars, [], []) == Convert(t[1..], vars, [], "a") by {
      assert t[0] == 'a' && [] + "a" == "a";
    }
    assert Convert(t[1..], vars, [], "a") == Convert(t[2..], vars, "+", "a") by {
      assert t[1..][0] == '+' && t[1..][1..] == t[2..] && [] + "+" == "+";
      assert Shunt('+', vars, [], "a") == Success(("+", "a"));
    }
    assert t[2..] == "b*c";
  }

  lemma PrecedenceTail()
    ensures Convert("b*c", "abc", "+", "a") == Success("abc*+")
  {
    PrecedenceMiddle();
    PrecedenceDrain();
  }

  lemma PrecedenceMiddle()
    ensures Convert("b*c", "abc", "+", "a") == Convert("c", "abc", "+*", "ab")
  {
    PrecedenceOperand();
    PrecedenceStar();
  }

  lemma PrecedenceOperand()
    ensures Convert("b*c", "abc", "+", "a") == Convert("*c", "abc", "+", "ab")
  {
    var t := "b*c";
    assert t[0] == 'b' && t[1..] == "*c" && "a" + "b" == "ab";
    assert Shunt('b', "abc", "+", "a") == Success(("+", "ab"));
  }

  lemma PrecedenceStar()
    ensures Convert("*c", "abc", "+", "ab") == Convert("c", "abc", "+*", "ab")
  {
    var t := "*c";
    assert t[0] == '*' && t[1..] == "c" && "+" + "*" == "+*";
    assert PopWhile('*', "+", "ab") == Success(("+", "ab"));
    assert Shunt('*', "abc", "+", "ab") == Success(("+*", "ab"));
  }

  lemma PrecedenceDrain()
    ensures Convert("c", "abc", "+*", "ab") == Success("abc*+")
  {
    var vars, t := "abc", "c";
    assert Convert(t, vars, "+*", "ab") == Convert([], vars, "+*", "abc") by {
      assert t[0] == 'c' && t[1..] == [] && "ab" + "c" == "abc";
    }
    assert Reverse("+*") == "*+" by {
      assert "+*"[..1] == "+" && "+"[..0] == [];
    }
    assert "abc" + "*+" == "abc*+";
  }

  /** Worked case: a NOT is popped by the AND that follows its operand. */
  lemma ToPostfixNot()
    ensures ToPostfix("!a*b", "ab") == Success("a!b*")
  {
    NotHead();
    NotTail();
  }

  lemma NotHead()
    ensures Convert("!a*b", "ab", [], []) == Convert("*b", "ab", "!", "a")
  {
    var vars, t := "ab", "!a*b";
    assert Convert(t, vars, [], []) == Convert(t[1..], vars, "!", []) by {
      assert t[0] == '!' && [] + "!" == "!";
      assert Shunt('!', vars, [], []) == Success(("!", []));
    }
    assert Convert(t[1..], vars, "!", []) == Convert(t[2..], vars, "!", "a") by {
      assert t[1..][0] == 'a' && t[1..][1..] == t[2..] && [] + "a" == "a";
    }
    assert t[2..] == "*b";
  }

  lemma NotTail()
    ensures Convert("*b", "ab", "!", "a") == Success("a!b*")
  {
    var vars, t := "ab", "*b";
    assert Convert(t, vars, "!", "a") == Convert(t[1..], vars, "*", "a!") by {
      assert t[0] == '*' && "!"[..0] == [] && "a" + "!" == "a!" && [] + "*" == "*";
      assert PopWhile('*', "!", "a") == Success(([], "a!"));
    }
    assert Convert(t[1..], vars, "*", "a!") == Convert([], vars, "*", "a!b") by {
      assert t[1..][0] == 'b' && t[1..][1..] == [] && "a!" + "b" == "a!b";
    }
    assert Convert([], vars, "*", "a!b") == Success("a!b*") by {
      assert "*"[..0] == [];
      assert Reverse("*") == "*";
      assert "a!b" + "*" == "a!b*";
    }
  }

  /** Worked case: a `)` pops the `(` beneath it into the output, where it stays. */
  lemma ToPostfixKeepsOpen()
    ensures ToPostfix("(a)", "a") == Success("a(")
  {
    var vars := "a";
    var t := "(a)";
    assert t[1..] == "a)" && t[2..] == ")" && t[3..] == [];
    assert Convert(t, vars, [], []) == Convert(t[1..], vars, "(", []) by {
      assert [] + "(" == "(";
    }
    assert Convert(t[1..], vars, "(", []) == Convert(t[2..], vars, "(", "a") by {
      assert [] + "a" == "a";
    }
    assert Convert(t[2..], vars, "(", "a") == Convert(t[3..], vars, [], "a(") by {
      assert "("[..0] == [] && "a" + "(" == "a(";
      assert PopWhile(')', "(", "a") == Success(([], "a("));
    }
    assert "a(" + [] == "a(";
  }
}
