/**
 * The truth table: every assignment of the variables, in the order `itertools.product`
 * yields them, paired with the value the stack machine computes for it. An assignment is
 * kept as the sequence of values in variable order; the dictionary the machine reads is
 * built from it as `dict(zip(variables, values))` does.
 */
module Tabulation {
  import opened Wrappers
  import opened Sequences
  import opened Alphabet
  import opened Extraction
  import opened Postfix
  import opened Evaluate

  /** The largest number of variables the table is computed for. */
  const MAX_VARIABLES := 10

  function Pow2(n: nat): (p: nat)
    ensures p >= 1
  {
    if n == 0 then 1 else 2 * Pow2(n - 1)
  }

  function Prefixed(b: bool, rows: seq<seq<bool>>): seq<seq<bool>> {
    seq(|rows|, k requires 0 <= k < |rows| => [b] + rows[k])
  }

  /**
   * The n-fold product of (False, True): lexicographic order with False first, the last
   * position varying fastest.
   */
  function Product(n: nat): seq<seq<bool>> {
    if n == 0 then [[]] else Prefixed(false, Product(n - 1)) + Prefixed(true, Product(n - 1))
  }

  /** The number an assignment spells in binary, first position most significant, True as 1. */
  function Rank(b: seq<bool>): nat {
    if |b| == 0 then 0 else (if b[0] then Pow2(|b| - 1) else 0) + Rank(b[1..])
  }

  lemma {:induction false} RankBound(b: seq<bool>)
    ensures Rank(b) < Pow2(|b|)
  {
    if |b| != 0 {
      RankBound(b[1..]);
    }
  }

  /** Two assignments of one length with the same rank are the same assignment. */
  lemma {:induction false} RankInjective(a: seq<bool>, b: seq<bool>)
    requires |a| == |b| && Rank(a) == Rank(b)
    ensures a == b
  {
    if |a| != 0 {
      RankBound(a[1..]);
      RankBound(b[1..]);
      assert a[0] == b[0];
      RankInjective(a[1..], b[1..]);
      assert a == [a[0]] + a[1..] && b == [b[0]] + b[1..];
    }
  }

  /** Row k of the product is the n-digit binary numeral of k. */
  lemma {:induction false} ProductRows(n: nat)
    ensures |Product(n)| == Pow2(n)
    ensures forall k :: 0 <= k < |Product(n)| ==> |Product(n)[k]| == n && Rank(Product(n)[k]) == k
  {
    if n != 0 {
      ProductRows(n - 1);
      var p := Product(n - 1);
      var h := Pow2(n - 1);
      forall k | 0 <= k < |Product(n)|
        ensures |Product(n)[k]| == n && Rank(Product(n)[k]) == k
      {
        var row := Product(n)[k];
        if k < h {
          assert row == [false] + p[k];
          assert row[1..] == p[k];
        } else {
          assert row == [true] + p[k - h];
          assert row[1..] == p[k - h];
        }
      }
    }
  }

  /** Every assignment of n values is in the product, at the position its rank names. */
  lemma ProductComplete(b: seq<bool>)
    ensures Rank(b) < |Product(|b|)| && Product(|b|)[Rank(b)] == b
  {
    ProductRows(|b|);
    RankBound(b);
    RankInjective(Product(|b|)[Rank(b)], b);
  }

  /** No two distinct positions of the product hold the same assignment. */
  lemma ProductDistinct(n: nat, i: nat, j: nat)
    requires i < j < |Product(n)|
    ensures Product(n)[i] != Product(n)[j]
  {
    ProductRows(n);
  }

  function Min(a: nat, b: nat): nat {
    if a < b then a else b
  }

  /**
   * The assignment as a dictionary, as `dict(zip(vars, values))` builds it: pairs up to
   * the shorter of the two, a later pair overriding an earlier one with the same key.
   */
  function Env(vars: seq<char>, values: seq<bool>): map<char, bool>
    decreases |vars|
  {
    if |vars| == 0 || |values| == 0 then map[]
    else
      var m := Min(|vars|, |values|);
      Env(vars[..m - 1], values[..m - 1])[vars[m - 1] := values[m - 1]]
  }

  predicate Distinct(s: seq<char>) {
    forall i, j :: 0 <= i < j < |s| ==> s[i] != s[j]
  }

  /** With one value per variable, the dictionary holds exactly the variables as keys. */
  lemma {:induction false} EnvKeys(vars: seq<char>, values: seq<bool>, c: char)
    requires |values| == |vars|
    ensures c in Env(vars, values) <==> c in vars
    decreases |vars|
  {
    if |vars| != 0 {
      var m := |vars|;
      EnvKeys(vars[..m - 1], values[..m - 1], c);
      LastSplit(vars);
      assert c in vars <==> c in vars[..m - 1] || c == vars[m - 1];
    }
  }

  /** For distinct variables and one value each, the dictionary maps each variable to its own value. */
  lemma {:induction false} EnvLookup(vars: seq<char>, values: seq<bool>, j: nat)
    requires Distinct(vars) && |values| == |vars| && j < |vars|
    ensures vars[j] in Env(vars, values) && Env(vars, values)[vars[j]] == values[j]
    decreases |vars|
  {
    var m := |vars|;
    if j < m - 1 {
      var vs, xs := vars[..m - 1], values[..m - 1];
      assert Distinct(vs);
      EnvLookup(vs, xs, j);
      assert vs[j] == vars[j] && xs[j] == values[j] && vars[j] != vars[m - 1];
    }
  }

  /** One row of the table: an assignment (values in variable order) and the value of the formula under it. */
  datatype Row = Row(assignment: seq<bool>, value: bool)

  /** Evaluates the postfix sequence under each assignment in turn; the first failure stops the table. */
  function Rows(assignments: seq<seq<bool>>, postfix: seq<char>, vars: seq<char>): Result<seq<Row>>
    decreases |assignments|
  {
    if |assignments| == 0 then Success([])
    else
      var init :- Rows(assignments[..|assignments| - 1], postfix, vars);
      var last := assignments[|assignments| - 1];
      var v :- Eval(postfix, vars, Env(vars, last));
      Success(init + [Row(last, v)])
  }

  /** Once a prefix of the assignments fails, the whole table fails with the same error. */
  lemma {:induction false} RowsPrefixFailure(assignments: seq<seq<bool>>, postfix: seq<char>, vars: seq<char>, i: nat)
    requires i <= |assignments|
    requires Rows(assignments[..i], postfix, vars).Failure?
    ensures Rows(assignments, postfix, vars) == Rows(assignments[..i], postfix, vars)
    decreases |assignments| - i
  {
    if i < |assignments| {
      var n := |assignments|;
      assert assignments[..n - 1][..i] == assignments[..i];
      RowsPrefixFailure(assignments[..n - 1], postfix, vars, i);
    } else {
      assert assignments[..i] == assignments;
    }
  }

  /** The table of a postfix sequence over its variables: at most ten of them, every assignment in product order. */
  function Table(postfix: seq<char>, vars: seq<char>): Result<seq<Row>> {
    if |vars| > MAX_VARIABLES then Failure(TooManyVariables)
    else Rows(Product(|vars|), postfix, vars)
  }

  /** The truth table of the origin formula. */
  function TruthTable(origin: string): Result<seq<Row>> {
    var q :- PostfixOf(origin);
    Table(q, Variables(origin))
  }

  /** The rows succeed exactly when every assignment evaluates, and then row k pairs assignment k with its value. */
  lemma {:induction false} RowsSpec(assignments: seq<seq<bool>>, postfix: seq<char>, vars: seq<char>)
    ensures Rows(assignments, postfix, vars).Success?
        <==> forall k :: 0 <= k < |assignments| ==> Eval(postfix, vars, Env(vars, assignments[k])).Success?
    ensures Rows(assignments, postfix, vars).Success? ==>
        var t := Rows(assignments, postfix, vars).value;
        |t| == |assignments|
        && forall k :: 0 <= k < |t| ==>
             t[k].assignment == assignments[k] && Eval(postfix, vars, Env(vars, assignments[k])) == Success(t[k].value)
    decreases |assignments|
  {
    if |assignments| != 0 {
      var n := |assignments|;
      var init := assignments[..n - 1];
      RowsSpec(init, postfix, vars);
      assert forall k :: 0 <= k < n - 1 ==> init[k] == assignments[k];
    }
  }

  /**
   * A table that is computed has between one and ten variables, one row per assignment
   * in product order (row k assigns the binary digits of k), and each row holds the
   * value of the formula under its assignment.
   */
  lemma TruthTableSpec(origin: string)
    requires TruthTable(origin).Success?
    ensures var t := TruthTable(origin).value;
      var vars := Variables(origin);
      var n := |vars|;
      && 1 <= n <= MAX_VARIABLES
      && |t| == Pow2(n)
      && (forall k :: 0 <= k < |t| ==> |t[k].assignment| == n && Rank(t[k].assignment) == k)
      && (forall k :: 0 <= k < |t| ==> Evaluation(origin, Env(vars, t[k].assignment)) == Success(t[k].value))
  {
    var q := PostfixOf(origin).value;
    var vars := Variables(origin);
    var n := |vars|;
    var t := TruthTable(origin).value;
    assert n <= MAX_VARIABLES && Rows(Product(n), q, vars) == Success(t);
    assert |t| == |Product(n)| && forall k :: 0 <= k < |t| ==>
        t[k].assignment == Product(n)[k] && Eval(q, vars, Env(vars, Product(n)[k])) == Success(t[k].value) by {
      RowsSpec(Product(n), q, vars);
    }
    ProductRows(n);
    if n == 0 {
      EvalWithoutVariables(q, Env(vars, Product(0)[0]));
    }
    forall k | 0 <= k < |t|
      ensures |t[k].assignment| == n && Rank(t[k].assignment) == k
      ensures Evaluation(origin, Env(vars, t[k].assignment)) == Success(t[k].value)
    {
      assert t[k].assignment == Product(n)[k];
      assert Evaluation(origin, Env(vars, t[k].assignment)) == Eval(q, vars, Env(vars, Product(n)[k]));
    }
  }

  /** What a computed table implies about the stages before it and the shape of its rows. */
  lemma TruthTableStages(origin: string)
    requires TruthTable(origin).Success?
    ensures PostfixOf(origin).Success?
    ensures forall c :: c in Variables(origin) ==> IsLetter(c)
    ensures var t := TruthTable(origin).value;
      forall k :: 0 <= k < |t| ==> |t[k].assignment| == |Variables(origin)|
  {
    TruthTableSpec(origin);
    VariablesSpec(origin);
  }

  /** Every assignment of the variables has its row, at the position its rank names. */
  lemma TruthTableRow(origin: string, b: seq<bool>)
    requires TruthTable(origin).Success?
    requires |b| == |Variables(origin)|
    ensures var t := TruthTable(origin).value;
      && Rank(b) < |t| && t[Rank(b)].assignment == b
      && Evaluation(origin, Env(Variables(origin), b)) == Success(t[Rank(b)].value)
  {
    var t := TruthTable(origin).value;
    TruthTableSpec(origin);
    RankBound(b);
    RankInjective(t[Rank(b)].assignment, b);
  }

  /** No two rows of a table share an assignment. */
  lemma TruthTableDistinct(origin: string)
    requires TruthTable(origin).Success?
    ensures var t := TruthTable(origin).value;
      forall i, j :: 0 <= i < j < |t| ==> t[i].assignment != t[j].assignment
  {
    TruthTableSpec(origin);
  }

  /**
   * Once the postfix form exists: more than ten variables is an error, and otherwise the
   * table is computed exactly when the formula evaluates under every assignment.
   */
  lemma TruthTableFailure(origin: string)
    requires PostfixOf(origin).Success?
    ensures |Variables(origin)| > MAX_VARIABLES ==> TruthTable(origin) == Failure(TooManyVariables)
    ensures |Variables(origin)| <= MAX_VARIABLES ==>
      (TruthTable(origin).Success? <==>
         forall b: seq<bool> :: |b| == |Variables(origin)| ==> Evaluation(origin, Env(Variables(origin), b)).Success?)
  {
    var q := PostfixOf(origin).value;
    var vars := Variables(origin);
    var n := |vars|;
    if n <= MAX_VARIABLES {
      ProductRows(n);
      RowsSpec(Product(n), q, vars);
      forall b: seq<bool> | |b| == n && TruthTable(origin).Success?
        ensures Evaluation(origin, Env(vars, b)).Success?
      {
        ProductComplete(b);
      }
    }
  }
}
