/**
 * The formula object. Each stage method first reruns the stages before it (as the
 * source does), then overwrites its own field. Each method's contract states its result
 * and new state in terms of the pure model of the stages; the properties of the stages
 * are proved about that model.
 */
module Formula {
  import opened Wrappers
  import opened Sequences
  import opened Alphabet
  import opened Extraction
  import opened Preprocessing
  import opened Postfix
  import opened Evaluate
  import opened Tabulation
  import opened Pdnf

  class PredicateFormula {
    var origin: string
    var processed: string
    var postfixExp: seq<char>
    var pdnf: string
    var logicVar: seq<char>
    var truthTable: seq<Row>
    var sigma: set<string>

    /** The object invariant: a legal origin, and a sigma of minterm text. */
    ghost predicate Valid()
      reads this`origin, this`sigma
    {
      IsLegal(origin) && OfLiterals(sigma)
    }

    /**
     * The fields the first three stages leave behind, given their earlier values: each
     * holds its stage's result for the current origin when that stage succeeds, and its
     * earlier value when it fails.
     */
    ghost predicate Staged(logicVar0: seq<char>, processed0: string, postfixExp0: seq<char>)
      reads this`origin, this`logicVar, this`processed, this`postfixExp
    {
      && (if Preprocess(origin).Success?
          then logicVar == Variables(origin) && processed == Preprocess(origin).value
          else logicVar == logicVar0 && processed == processed0)
      && (if PostfixOf(origin).Success? then postfixExp == PostfixOf(origin).value else postfixExp == postfixExp0)
    }

    /** A formula over a legal origin; every derived field starts empty. */
    constructor(origin: string)
      requires IsLegal(origin)
      ensures Valid()
      ensures this.origin == origin
      ensures processed == [] && postfixExp == [] && pdnf == [] && logicVar == [] && truthTable == [] && sigma == {}
    {
      this.origin := origin;
      processed := [];
      postfixExp := [];
      pdnf := [];
      logicVar := [];
      truthTable := [];
      sigma := {};
    }

    /** Construction from an optional origin: none gives the empty formula, an illegal one fails. */
    static method New(origin: Option<string>) returns (r: Result<PredicateFormula>)
      ensures r.Failure? <==> origin.Some? && !IsLegal(origin.value)
      ensures r.Failure? ==> r.error == IllegalCharacter
      ensures r.Success? ==> fresh(r.value) && r.value.Valid() && r.value.sigma == {}
      ensures r.Success? ==> r.value.origin == (if origin.Some? then origin.value else "")
      ensures r.Success? ==>
        r.value.processed == [] && r.value.postfixExp == [] && r.value.pdnf == []
        && r.value.logicVar == [] && r.value.truthTable == []
    {
      if origin.None? {
        var f := new PredicateFormula("");
        return Success(f);
      } else if !IsLegal(origin.value) {
        return Failure(IllegalCharacter);
      } else {
        var f := new PredicateFormula(origin.value);
        return Success(f);
      }
    }

    /** Replaces the origin with a legal formula; none changes nothing, an illegal one fails and changes nothing. */
    method SetFormula(formula: Option<string>) returns (r: Result<Option<string>>)
      modifies this`origin
      ensures formula.None? ==> r == Success(None) && origin == old(origin)
      ensures formula.Some? && !IsLegal(formula.value) ==> r == Failure(IllegalCharacter) && origin == old(origin)
      ensures formula.Some? && IsLegal(formula.value) ==> r == Success(formula) && origin == formula.value
      ensures old(Valid()) ==> Valid()
    {
      if formula.None? {
        return Success(None);
      }
      if !IsLegal(formula.value) {
        return Failure(IllegalCharacter);
      }
      origin := formula.value;
      return Success(formula);
    }

    /** Collects the distinct letters of the origin in order of appearance, then sorts them. */
    method ExtractVariable() returns (r: Result<seq<char>>)
      modifies this`logicVar
      ensures r == ExtractVariables(origin)
      ensures r.Success? ==> logicVar == r.value
      ensures r.Failure? ==> logicVar == old(logicVar)
    {
      if origin == "" {
        return Failure(EmptyFormula);
      }
      if !IsLegal(origin) {
        return Failure(IllegalCharacter);
      }
      var o := origin;
      var found: seq<char> := [];
      for i := 0 to |o|
        invariant forall j, k :: 0 <= j < k < |found| ==> found[j] != found[k]
        invariant forall c :: c in found <==> IsLetter(c) && c in o[..i]
      {
        if IsLetter(o[i]) && o[i] !in found {
          found := found + [o[i]];
        }
        assert o[..i + 1] == o[..i] + [o[i]];
      }
      assert o[..|o|] == o;
      var sorted := SortLetters(found);
      VariablesSpec(o);
      SortedUnique(sorted, Variables(o));
      logicVar := sorted;
      return Success(sorted);
    }

    /** Preprocessing: skips spaces, cancels NOT pairs, inserts the implicit ANDs, appends the last character. */
    method ProcessFormula() returns (r: Result<string>)
      modifies this`logicVar, this`processed
      ensures r == Preprocess(origin)
      ensures r.Success? ==> logicVar == Variables(origin) && processed == r.value
      ensures r.Failure? ==> logicVar == old(logicVar) && processed == old(processed)
    {
      var extracted := ExtractVariable();
      if extracted.Failure? {
        assert Preprocess(origin) == Failure(extracted.error);
        return Failure(extracted.error);
      }
      var o := origin;
      var vars := logicVar;
      assert ExtractVariables(o) == Success(vars);
      var process := PreprocessPass(o, vars);
      assert Preprocess(o) == Success(Process(o, vars));
      processed := process;
      return Success(process);
    }

    /** Conversion to postfix, after preprocessing. */
    method ToPostfixExp() returns (r: Result<seq<char>>)
      modifies this`logicVar, this`processed, this`postfixExp
      ensures r == PostfixOf(origin)
      ensures Staged(old(logicVar), old(processed), old(postfixExp))
    {
      var p := ProcessFormula();
      if p.Failure? {
        return Failure(p.error);
      }
      r := ConvertTokens(processed, logicVar);
      if r.Success? {
        postfixExp := r.value;
      }
    }

    /** The value of the formula under one assignment, after conversion to postfix. */
    method CalcPostfixExp(env: map<char, bool>) returns (r: Result<bool>)
      modifies this`logicVar, this`processed, this`postfixExp
      ensures r == Evaluation(origin, env)
      ensures Staged(old(logicVar), old(processed), old(postfixExp))
    {
      var q := ToPostfixExp();
      if q.Failure? {
        return Failure(q.error);
      }
      r := RunPostfix(postfixExp, logicVar, env);
    }

    /**
     * The truth table: refuses more than ten variables, then evaluates every assignment
     * in product order.
     */
    method CalcTruthTable() returns (r: Result<seq<Row>>)
      modifies this`logicVar, this`processed, this`postfixExp, this`truthTable
      ensures r == TruthTable(origin)
      ensures Staged(old(logicVar), old(processed), old(postfixExp))
      ensures truthTable == (if r.Success? then r.value else old(truthTable))
    {
      var q := ToPostfixExp();
      if q.Success? {
        r := Tabulate(postfixExp, logicVar);
      } else {
        r := Failure(q.error);
      }
      truthTable := if r.Success? then r.value else truthTable;
    }

    /**
     * Adds the minterm of every true row to sigma, which is never cleared, then joins
     * sigma with `+` in whatever order the set yields its elements, or writes the
     * contradiction text when sigma is empty.
     */
    method Parse() returns (r: Result<bool>)
      requires Valid()
      modifies this`logicVar, this`processed, this`postfixExp, this`truthTable, this`sigma, this`pdnf
      ensures Valid()
      ensures r == (if TruthTable(origin).Success? then Success(true) else Failure(TruthTable(origin).error))
      ensures Staged(old(logicVar), old(processed), old(postfixExp))
      ensures if r.Success?
        then truthTable == TruthTable(origin).value && sigma == old(sigma) + Sigma(Variables(origin), truthTable)
          && Renders(sigma, pdnf)
        else truthTable == old(truthTable) && sigma == old(sigma) && pdnf == old(pdnf)
    {
      var t := CalcTruthTable();
      sigma, pdnf := Summarise(origin, t, sigma, pdnf);
      r := if t.Success? then Success(true) else Failure(t.error);
    }

    /**
     * The state `__eq__` leaves behind for a formula `other`: both origins unchanged; this
     * formula parsed first, and `other` parsed only when that succeeds; the answer is an
     * error of the first parse that fails, and otherwise the equality of the two sigmas. A
     * parse that fails leaves its formula's truth table, sigma and PDNF as they were.
     */
    twostate predicate Compared(other: PredicateFormula, new r: Result<bool>)
      reads this, other
    {
      var t, u := TruthTable(origin), TruthTable(other.origin);
      && origin == old(origin) && other.origin == old(other.origin)
      && Valid() && other.Valid()
      && Staged(old(logicVar), old(processed), old(postfixExp))
      && r == (if t.Failure? then Failure(t.error) else if u.Failure? then Failure(u.error) else Success(sigma == other.sigma))
      && (t.Failure? ==>
          && truthTable == old(truthTable) && sigma == old(sigma) && pdnf == old(pdnf)
          && (other != this ==>
              && other.logicVar == old(other.logicVar) && other.processed == old(other.processed)
              && other.postfixExp == old(other.postfixExp) && other.truthTable == old(other.truthTable)
              && other.sigma == old(other.sigma) && other.pdnf == old(other.pdnf)))
      && (t.Success? ==>
          && truthTable == t.value && sigma == old(sigma) + Sigma(Variables(origin), t.value) && Renders(sigma, pdnf)
          && other.Staged(old(other.logicVar), old(other.processed), old(other.postfixExp)))
      && (t.Success? && u.Success? ==>
          && other.truthTable == u.value
          && other.sigma == old(other.sigma) + Sigma(Variables(other.origin), u.value)
          && Renders(other.sigma, other.pdnf))
      && (t.Success? && u.Failure? ==>
          other.truthTable == old(other.truthTable) && other.sigma == old(other.sigma) && other.pdnf == old(other.pdnf))
    }

    /**
     * Equality of formulas: anything that is not a formula is unequal; otherwise both are
     * parsed, this one first, and their sigmas compared. Parsing only ever adds to sigma,
     * so the comparison is between the minterms each formula has accumulated so far.
     */
    method Eq(other: PredicateFormula?) returns (r: Result<bool>)
      requires Valid()
      requires other != null ==> other.Valid()
      modifies this, other
      ensures other == null ==> r == Success(false) && unchanged(this)
      ensures other != null ==> Compared(other, r)
    {
      if other == null {
        return Success(false);
      }
      r := Compare(other);
    }

    /** `__eq__` once `other` is known to be a formula: parse both, then compare the sigmas. */
    method Compare(other: PredicateFormula) returns (r: Result<bool>)
      requires Valid() && other.Valid()
      modifies this`logicVar, this`processed, this`postfixExp, this`truthTable, this`sigma, this`pdnf
      modifies other`logicVar, other`processed, other`postfixExp, other`truthTable, other`sigma, other`pdnf
      ensures Compared(other, r)
    {
      var p := Parse();
      if p.Failure? {
        return Failure(p.error);
      }
      if other == this {
        var again := Parse();
        return Success(sigma == other.sigma);
      }
      var q := other.Parse();
      r := if q.Success? then Success(sigma == other.sigma) else Failure(q.error);
    }

    /** The class-level comparison: two formulas with the same origin text. */
    static predicate Equal(a: PredicateFormula?, b: PredicateFormula?)
      reads a, b
      ensures Equal(a, b) ==> a != null && b != null && TruthTable(a.origin) == TruthTable(b.origin)
    {
      a != null && b != null && a.origin == b.origin
    }
  }

  /**
   * `__eq__` on two formulas whose sigma was empty before, as after construction: it
   * fails exactly when either truth table does, and otherwise answers whether the two
   * formulas mean the same.
   */
  twostate lemma EqUnparsed(f: PredicateFormula, g: PredicateFormula, new r: Result<bool>)
    requires old(f.sigma) == {} && old(g.sigma) == {}
    requires f.Compared(g, r)
    ensures r.Failure? <==> TruthTable(f.origin).Failure? || TruthTable(g.origin).Failure?
    ensures r.Success? ==> (r.value <==> Equivalent(f.origin, g.origin))
  {
    if r.Success? {
      SigmaEquality(f.origin, g.origin);
    }
  }

  method PreprocessPass(o: string, vars: seq<char>) returns (process: string)
    requires |o| >= 1
    ensures process == Process(o, vars)
  {
    process := [];
    for i := 0 to |o| - 1
      invariant process == Buffer(o, vars, i)
    {
      ghost var before := process;
      if o[i] != ' ' {
        process := process + [o[i]];
        if |process| >= 2 && process[|process| - 1] == '!' && process[|process| - 2] == '!' {
          process := process[..|process| - 2];
        }
        assert process == CancelDoubleNot(before + [o[i]]);
        if (o[i] in vars || o[i] == ')') && (o[i + 1] in vars || o[i + 1] == '(' || o[i + 1] == '!') {
          process := process + ['*'];
        }
      }
      assert process == Step(o, vars, i, before);
    }
    process := process + [o[|o| - 1]];
  }

  /**
   * The conversion loop: variables go to the output; any other token pops while its
   * incoming priority is at most the in-stack priority of the top, drops a `(` left on
   * top, and is pushed unless it is `)`; the stack is drained at the end.
   */
  method ConvertTokens(tokens: seq<char>, vars: seq<char>) returns (r: Result<seq<char>>)
    ensures r == ToPostfix(tokens, vars)
  {
    var stack: seq<char> := [];
    var out: seq<char> := [];
    for i := 0 to |tokens|
      invariant Convert(tokens[i..], vars, stack, out) == ToPostfix(tokens, vars)
    {
      var c := tokens[i];
      assert tokens[i..][0] == c && tokens[i..][1..] == tokens[i + 1..];
      if c in vars {
        out := out + [c];
      } else {
        ghost var stack0, out0 := stack, out;
        while |stack| != 0
          invariant PopWhile(c, stack, out) == PopWhile(c, stack0, out0)
          decreases |stack|
        {
          var incoming := Icp(c);
          var inStack := Isp(stack[|stack| - 1]);
          if incoming.None? || inStack.None? {
            assert Shunt(c, vars, stack0, out0) == Failure(PriorityUndefined);
            return Failure(PriorityUndefined);
          }
          if incoming.value > inStack.value {
            break;
          }
          out := out + [stack[|stack| - 1]];
          stack := stack[..|stack| - 1];
        }
        assert PopWhile(c, stack0, out0) == Success((stack, out));
        if |stack| != 0 && stack[|stack| - 1] == '(' {
          stack := stack[..|stack| - 1];
        }
        if c != ')' {
          stack := stack + [c];
        }
        assert Shunt(c, vars, stack0, out0) == Success((stack, out));
      }
    }
    while |stack| != 0
      invariant Success(out + Reverse(stack)) == ToPostfix(tokens, vars)
      decreases |stack|
    {
      assert Reverse(stack) == [stack[|stack| - 1]] + Reverse(stack[..|stack| - 1]);
      assert out + Reverse(stack) == (out + [stack[|stack| - 1]]) + Reverse(stack[..|stack| - 1]);
      out := out + [stack[|stack| - 1]];
      stack := stack[..|stack| - 1];
    }
    assert out + Reverse(stack) == out;
    return Success(out);
  }

  /** The evaluation loop of the stack machine, under one assignment. */
  method RunPostfix(postfix: seq<char>, vars: seq<char>, env: map<char, bool>) returns (r: Result<bool>)
    ensures r == Eval(postfix, vars, env)
  {
    var stack: seq<bool> := [];
    for i := 0 to |postfix|
      invariant Run(postfix[i..], vars, env, stack) == Run(postfix, vars, env, [])
    {
      var c := postfix[i];
      assert postfix[i..][0] == c && postfix[i..][1..] == postfix[i + 1..];
      ghost var before := stack;
      if c in vars {
        if c !in env {
          return Failure(MissingValue);
        }
        stack := stack + [env[c]];
      } else if c == '!' {
        if |stack| == 0 {
          return Failure(StackUnderflow);
        }
        var x := stack[|stack| - 1];
        stack := stack[..|stack| - 1] + [!x];
      } else if c == '*' {
        if |stack| == 0 {
          return Failure(StackUnderflow);
        }
        var x := stack[|stack| - 1];
        stack := stack[..|stack| - 1];
        if x {
          if |stack| == 0 {
            return Failure(StackUnderflow);
          }
          var y := stack[|stack| - 1];
          stack := stack[..|stack| - 1] + [x && y];
        } else {
          stack := stack + [x];
        }
      } else if c == '+' {
        if |stack| == 0 {
          return Failure(StackUnderflow);
        }
        var x := stack[|stack| - 1];
        stack := stack[..|stack| - 1];
        if !x {
          if |stack| == 0 {
            return Failure(StackUnderflow);
          }
          var y := stack[|stack| - 1];
          stack := stack[..|stack| - 1] + [x || y];
        } else {
          stack := stack + [x];
        }
      }
      assert Exec(c, vars, env, before) == Success(stack);
    }
    if |stack| == 0 {
      return Failure(SyntaxError);
    }
    return Success(stack[|stack| - 1]);
  }

  /** The minterm of one row, one literal per variable in order. */
  method MintermOf(vars: seq<char>, values: seq<bool>) returns (m: string)
    requires |values| == |vars|
    ensures m == Minterm(vars, values)
  {
    m := [];
    for j := 0 to |vars|
      invariant m == Minterm(vars[..j], values[..j])
    {
      MintermSnoc(vars, values, j);
      if values[j] {
        m := m + [vars[j]];
      } else {
        m := m + ['!', vars[j]];
      }
    }
    assert vars[..|vars|] == vars && values[..|vars|] == values;
  }

  /** Adds the minterm of every true row to the given set. */
  method CollectMinterms(vars: seq<char>, rows: seq<Row>, sigma0: set<string>) returns (sigma: set<string>)
    requires forall k :: 0 <= k < |rows| ==> |rows[k].assignment| == |vars|
    requires forall c :: c in vars ==> IsLetter(c)
    ensures sigma == sigma0 + Sigma(vars, rows)
    ensures OfLiterals(sigma0) ==> OfLiterals(sigma)
  {
    sigma := sigma0;
    for i := 0 to |rows|
      invariant sigma == sigma0 + Sigma(vars, rows[..i])
      invariant OfLiterals(sigma0) ==> OfLiterals(sigma)
    {
      assert rows[..i + 1][..i] == rows[..i];
      if rows[i].value {
        var m := MintermOf(vars, rows[i].assignment);
        MintermOfLiterals(vars, rows[i].assignment);
        sigma := sigma + {m};
      }
    }
    assert rows[..|rows|] == rows;
  }

  /** What parsing does after a successful truth table: adds the true rows' minterms to sigma, then renders it. */
  method Summarise(origin: string, t: Result<seq<Row>>, sigma0: set<string>, pdnf0: string)
    returns (sigma: set<string>, pdnf: string)
    requires t == TruthTable(origin)
    requires OfLiterals(sigma0)
    ensures OfLiterals(sigma)
    ensures if t.Success?
      then sigma == sigma0 + Sigma(Variables(origin), t.value) && Renders(sigma, pdnf)
      else sigma == sigma0 && pdnf == pdnf0
  {
    sigma, pdnf := sigma0, pdnf0;
    if t.Success? {
      TruthTableStages(origin);
      sigma := CollectMinterms(Variables(origin), t.value, sigma0);
      pdnf := JoinSigma(sigma);
    }
  }

  /**
   * The `+`-join of sigma, taking its elements in an order the set chooses, or the
   * contradiction text for an empty sigma.
   */
  method JoinSigma(sigma: set<string>) returns (pdnf: string)
    requires OfLiterals(sigma)
    ensures Renders(sigma, pdnf)
  {
    if sigma == {} {
      return CONTRADICTION;
    }
    var first :| first in sigma;
    var rest := sigma - {first};
    pdnf := first;
    ghost var order, done := [first], {first};
    assert multiset(order) == multiset(done);
    while rest != {}
      invariant |order| != 0 && pdnf == JoinPlus(order)
      invariant multiset(order) == multiset(done)
      invariant done + rest == sigma && done !! rest
      decreases |rest|
    {
      var m :| m in rest;
      JoinPlusSnoc(order, m);
      MultisetSnoc(order, done, m);
      pdnf := pdnf + "+" + m;
      order, done := order + [m], done + {m};
      rest := rest - {m};
    }
    assert done == sigma;
    JoinRenders(sigma, order);
  }

  /** Evaluates the postfix sequence under every assignment of the variables, in product order. */
  method Tabulate(postfix: seq<char>, vars: seq<char>) returns (r: Result<seq<Row>>)
    ensures r == Table(postfix, vars)
  {
    if |vars| > MAX_VARIABLES {
      return Failure(TooManyVariables);
    }
    var assignments := Product(|vars|);
    var table: seq<Row> := [];
    for i := 0 to |assignments|
      invariant Rows(assignments[..i], postfix, vars) == Success(table)
    {
      var value := RunPostfix(postfix, vars, Env(vars, assignments[i]));
      assert assignments[..i + 1][..i] == assignments[..i];
      if value.Failure? {
        RowsPrefixFailure(assignments, postfix, vars, i + 1);
        return Failure(value.error);
      }
      table := table + [Row(assignments[i], value.value)];
    }
    assert assignments[..|assignments|] == assignments;
    return Success(table);
  }
}
