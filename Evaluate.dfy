/**
 * The postfix stack machine, run against one assignment of truth values. A variable
 * pushes its value, `!` negates the top. `*` pops x and pops a second value y only when
 * x holds, then pushes `x and y`; `+` pops x and pops y only when x does not hold, then
 * pushes `x or y`. Every other token is ignored. The result is the top of the final
 * stack; an empty final stack is a syntax error.
 */
module Evaluate {
  import opened Wrappers
  import opened Alphabet
  import opened Extraction
  import opened Preprocessing
  import opened Postfix

  /** One token of the stack machine (the top of the stack is its last element). */
  function Exec(c: char, vars: seq<char>, env: map<char, bool>, stack: seq<bool>): Result<seq<bool>> {
    if c in vars then
      if c in env then Success(stack + [env[c]]) else Failure(MissingValue)
    else if c == '!' then
      if |stack| == 0 then Failure(StackUnderflow)
      else Success(stack[..|stack| - 1] + [!stack[|stack| - 1]])
    else if c == '*' then
      if |stack| == 0 then Failure(StackUnderflow)
      else
        var x := stack[|stack| - 1];
        var rest := stack[..|stack| - 1];
        if !x then Success(rest + [x])
        else if |rest| == 0 then Failure(StackUnderflow)
        else Success(rest[..|rest| - 1] + [x && rest[|rest| - 1]])
    else if c == '+' then
      if |stack| == 0 then Failure(StackUnderflow)
      else
        var x := stack[|stack| - 1];
        var rest := stack[..|stack| - 1];
        if x then Success(rest + [x])
        else if |rest| == 0 then Failure(StackUnderflow)
        else Success(rest[..|rest| - 1] + [x || rest[|rest| - 1]])
    else Success(stack)
  }

  /** Runs the machine over the tokens, starting from the given stack. */
  function Run(tokens: seq<char>, vars: seq<char>, env: map<char, bool>, stack: seq<bool>): Result<seq<bool>>
    decreases |tokens|
  {
    if |tokens| == 0 then Success(stack)
    else
      var next :- Exec(tokens[0], vars, env, stack);
      Run(tokens[1..], vars, env, next)
  }

  /** The value of a postfix token sequence under an assignment. */
  function Eval(postfix: seq<char>, vars: seq<char>, env: map<char, bool>): Result<bool> {
    var final :- Run(postfix, vars, env, []);
    if |final| == 0 then Failure(SyntaxError) else Success(final[|final| - 1])
  }

  /** The first four stages composed: the value of the origin formula under an assignment. */
  function Evaluation(origin: string, env: map<char, bool>): Result<bool> {
    var q :- PostfixOf(origin);
    Eval(q, Variables(origin), env)
  }

  /** A token that the machine skips: neither a variable nor an operator. */
  predicate Inert(c: char, vars: seq<char>) {
    c !in vars && !IsOperator(c)
  }

  /** A token never empties a non-empty stack: `*` and `+` either keep the stack or drop one value from at least two. */
  lemma ExecKeepsNonEmpty(c: char, vars: seq<char>, env: map<char, bool>, stack: seq<bool>)
    requires |stack| != 0
    requires Exec(c, vars, env, stack).Success?
    ensures |Exec(c, vars, env, stack).value| != 0
  {
  }

  lemma {:induction false} RunKeepsNonEmpty(tokens: seq<char>, vars: seq<char>, env: map<char, bool>, stack: seq<bool>)
    requires |stack| != 0
    requires Run(tokens, vars, env, stack).Success?
    ensures |Run(tokens, vars, env, stack).value| != 0
    decreases |tokens|
  {
    if |tokens| != 0 {
      ExecKeepsNonEmpty(tokens[0], vars, env, stack);
      RunKeepsNonEmpty(tokens[1..], vars, env, Exec(tokens[0], vars, env, stack).value);
    }
  }

  /** The machine itself never reports a syntax error: that is decided on the final stack. */
  lemma {:induction false} RunNoSyntaxError(tokens: seq<char>, vars: seq<char>, env: map<char, bool>, stack: seq<bool>)
    ensures Run(tokens, vars, env, stack) != Failure(SyntaxError)
    decreases |tokens|
  {
    if |tokens| != 0 && Exec(tokens[0], vars, env, stack).Success? {
      RunNoSyntaxError(tokens[1..], vars, env, Exec(tokens[0], vars, env, stack).value);
    }
  }

  /** From an empty stack, the machine ends with an empty stack exactly when every token is skipped. */
  lemma {:induction false} RunFromEmpty(tokens: seq<char>, vars: seq<char>, env: map<char, bool>)
    ensures Run(tokens, vars, env, []) == Success([])
        <==> forall i :: 0 <= i < |tokens| ==> Inert(tokens[i], vars)
    decreases |tokens|
  {
    if |tokens| != 0 {
      var c := tokens[0];
      RunFromEmpty(tokens[1..], vars, env);
      assert forall i :: 1 <= i < |tokens| ==> tokens[i] == tokens[1..][i - 1];
      var empty: seq<bool> := [];
      if Inert(c, vars) {
        assert Exec(c, vars, env, empty) == Success(empty);
      } else if c in vars && c in env {
        assert empty + [env[c]] == [env[c]];
        assert Run(tokens, vars, env, empty) == Run(tokens[1..], vars, env, [env[c]]);
        if Run(tokens[1..], vars, env, [env[c]]).Success? {
          RunKeepsNonEmpty(tokens[1..], vars, env, [env[c]]);
        }
      } else {
        assert Exec(c, vars, env, empty).Failure?;
      }
    }
  }

  /**
   * Evaluation ends in a syntax error exactly when the postfix sequence holds no variable
   * and no operator; any operator met on an empty stack fails with a stack underflow first.
   */
  lemma EvalSyntaxError(postfix: seq<char>, vars: seq<char>, env: map<char, bool>)
    ensures Eval(postfix, vars, env) == Failure(SyntaxError)
        <==> forall i :: 0 <= i < |postfix| ==> Inert(postfix[i], vars)
  {
    RunFromEmpty(postfix, vars, env);
    RunNoSyntaxError(postfix, vars, env, []);
    var r := Run(postfix, vars, env, []);
    if r.Success? && |r.value| == 0 {
      assert r.value == [];
    }
  }

  /** With no variables at all, nothing is ever pushed, and evaluation always fails. */
  lemma {:induction false} RunWithoutVariables(tokens: seq<char>, env: map<char, bool>)
    ensures Run(tokens, [], env, []) == Success([]) || Run(tokens, [], env, []) == Failure(StackUnderflow)
    decreases |tokens|
  {
    if |tokens| != 0 {
      RunWithoutVariables(tokens[1..], env);
    }
  }

  lemma EvalWithoutVariables(postfix: seq<char>, env: map<char, bool>)
    ensures Eval(postfix, [], env).Failure?
  {
    RunWithoutVariables(postfix, env);
  }

  /**
   * The short-circuit pops in action: for `a+b*c`, converted to `abc*+`, with a
   * and c false and b true, the false value of c stays on the stack and `+` then reads b,
   * so the machine answers true where `a or (b and c)` is false.
   */
  lemma ShortCircuitExample()
    ensures Eval("abc*+", "abc", map['a' := false, 'b' := true, 'c' := false]) == Success(true)
  {
  }
}
