/**
 * From the truth table to the principal disjunctive normal form. Every true row gives a
 * minterm: the variables in order, each preceded by `!` when it is false in that row.
 * The minterms collect in a set (sigma), and the PDNF is their `+`-join, or the text
 * "Contradictory Formula" when there is none.
 */
module Pdnf {
  import opened Wrappers
  import opened Alphabet
  import opened Extraction
  import opened Postfix
  import opened Evaluate
  import opened Tabulation
  import opened Sequences

  /** The PDNF text of a formula without a true row. */
  const CONTRADICTION := "Contradictory Formula"

  function Literal(v: char, b: bool): string {
    if b then [v] else ['!', v]
  }

  /** The minterm of an assignment, pairing variables with values up to the shorter of the two. */
  function Minterm(vars: seq<char>, values: seq<bool>): string
    decreases |vars|
  {
    if |vars| == 0 || |values| == 0 then []
    else Literal(vars[0], values[0]) + Minterm(vars[1..], values[1..])
  }

  /** Reads a minterm back into its variables and values: `!v` is a false v, a lone v a true one. */
  function Decode(m: string): Option<(seq<char>, seq<bool>)>
    decreases |m|
  {
    if |m| == 0 then Some(([], []))
    else if m[0] != '!' then
      match Decode(m[1..])
      case None => None
      case Some(p) => Some(([m[0]] + p.0, [true] + p.1))
    else if |m| >= 2 && m[1] != '!' then
      match Decode(m[2..])
      case None => None
      case Some(p) => Some(([m[1]] + p.0, [false] + p.1))
    else None
  }

  /** A minterm over variables that are not `!` decodes to the variables and values it was built from. */
  lemma {:induction false} DecodeMinterm(vars: seq<char>, values: seq<bool>)
    requires '!' !in vars && |values| == |vars|
    ensures Decode(Minterm(vars, values)) == Some((vars, values))
    decreases |vars|
  {
    if |vars| != 0 {
      var rest := Minterm(vars[1..], values[1..]);
      DecodeMinterm(vars[1..], values[1..]);
      var m := Literal(vars[0], values[0]) + rest;
      assert Minterm(vars, values) == m;
      if values[0] {
        assert m[1..] == rest;
      } else {
        assert m[2..] == rest;
      }
      assert vars == [vars[0]] + vars[1..];
      assert values == [values[0]] + values[1..];
    }
  }

  /** Distinct assignments of the same variables give distinct minterms. */
  lemma MintermInjective(vars: seq<char>, a: seq<bool>, b: seq<bool>)
    requires '!' !in vars && |a| == |vars| && |b| == |vars|
    requires Minterm(vars, a) == Minterm(vars, b)
    ensures a == b
  {
    DecodeMinterm(vars, a);
    DecodeMinterm(vars, b);
  }

  /** A minterm is made of the variables and `!` only. */
  lemma {:induction false} MintermAlphabet(vars: seq<char>, values: seq<bool>)
    ensures forall c :: c in Minterm(vars, values) ==> c in vars || c == '!'
    decreases |vars|
  {
    if |vars| != 0 && |values| != 0 {
      MintermAlphabet(vars[1..], values[1..]);
      forall c | c in vars[1..]
        ensures c in vars
      {
      }
    }
  }

  /** The minterm grows one literal at a time, in variable order. */
  lemma {:induction false} MintermSnoc(vars: seq<char>, values: seq<bool>, j: nat)
    requires j < |vars| && j < |values|
    ensures Minterm(vars[..j + 1], values[..j + 1]) == Minterm(vars[..j], values[..j]) + Literal(vars[j], values[j])
    decreases j
  {
    if j != 0 {
      MintermSnoc(vars[1..], values[1..], j - 1);
      assert vars[1..][..j] == vars[..j + 1][1..];
      assert values[1..][..j] == values[..j + 1][1..];
      assert vars[1..][..j - 1] == vars[..j][1..];
      assert values[1..][..j - 1] == values[..j][1..];
    }
  }

  /** The minterms of the true rows (the set `sigma` collects). */
  function Sigma(vars: seq<char>, rows: seq<Row>): set<string>
    decreases |rows|
  {
    if |rows| == 0 then {}
    else
      var last := rows[|rows| - 1];
      Sigma(vars, rows[..|rows| - 1]) + (if last.value then {Minterm(vars, last.assignment)} else {})
  }

  /** The number of true rows. */
  function CountTrue(rows: seq<Row>): nat
    decreases |rows|
  {
    if |rows| == 0 then 0
    else CountTrue(rows[..|rows| - 1]) + (if rows[|rows| - 1].value then 1 else 0)
  }

  /** Sigma holds exactly the minterms of the true rows. */
  lemma {:induction false} SigmaMembers(vars: seq<char>, rows: seq<Row>)
    ensures forall m :: (m in Sigma(vars, rows)
      <==> exists k :: 0 <= k < |rows| && rows[k].value && m == Minterm(vars, rows[k].assignment))
    decreases |rows|
  {
    if |rows| != 0 {
      var n := |rows|;
      SigmaMembers(vars, rows[..n - 1]);
      assert forall k :: 0 <= k < n - 1 ==> rows[..n - 1][k] == rows[k];
    }
  }

  /** Rows with distinct assignments of full length give one minterm each: sigma has one element per true row. */
  lemma {:induction false} SigmaSize(vars: seq<char>, rows: seq<Row>)
    requires '!' !in vars
    requires forall k :: 0 <= k < |rows| ==> |rows[k].assignment| == |vars|
    requires forall i, j :: 0 <= i < j < |rows| ==> rows[i].assignment != rows[j].assignment
    ensures |Sigma(vars, rows)| == CountTrue(rows)
    decreases |rows|
  {
    if |rows| != 0 {
      var n := |rows|;
      var init := rows[..n - 1];
      var last := rows[n - 1];
      SigmaSize(vars, init);
      if last.value {
        var m := Minterm(vars, last.assignment);
        if m in Sigma(vars, init) {
          SigmaMembers(vars, init);
          var k :| 0 <= k < n - 1 && init[k].value && m == Minterm(vars, init[k].assignment);
          MintermInjective(vars, init[k].assignment, last.assignment);
          assert false;
        }
      }
    }
  }

  /** Properties of the variable list that the minterm lemmas rely on. */
  lemma VariablesShape(origin: string)
    ensures '!' !in Variables(origin) && '+' !in Variables(origin)
    ensures Distinct(Variables(origin))
  {
    VariablesSpec(origin);
  }

  /** A true row contributes its minterm to sigma. */
  lemma SigmaRow(vars: seq<char>, rows: seq<Row>, k: nat)
    requires k < |rows| && rows[k].value
    ensures Minterm(vars, rows[k].assignment) in Sigma(vars, rows)
  {
    SigmaMembers(vars, rows);
  }

  /** Every element of sigma comes from a true row. */
  lemma SigmaWitness(vars: seq<char>, rows: seq<Row>, m: string) returns (k: nat)
    requires m in Sigma(vars, rows)
    ensures k < |rows| && rows[k].value && m == Minterm(vars, rows[k].assignment)
  {
    SigmaMembers(vars, rows);
    k :| 0 <= k < |rows| && rows[k].value && m == Minterm(vars, rows[k].assignment);
  }

  /**
   * The PDNF is sound and complete for the machine's semantics: an assignment of the
   * variables has its minterm in sigma exactly when the formula evaluates to true under it.
   */
  lemma SigmaComplete(origin: string, b: seq<bool>)
    requires TruthTable(origin).Success?
    requires |b| == |Variables(origin)|
    ensures var vars := Variables(origin);
      Minterm(vars, b) in Sigma(vars, TruthTable(origin).value) <==> Evaluation(origin, Env(vars, b)) == Success(true)
  {
    var t := TruthTable(origin).value;
    var vars := Variables(origin);
    var r := Rank(b);
    assert r < |t| && t[r].assignment == b && Evaluation(origin, Env(vars, b)) == Success(t[r].value) by {
      TruthTableRow(origin, b);
    }
    if Minterm(vars, b) in Sigma(vars, t) {
      var j := SigmaWitness(vars, t, Minterm(vars, b));
      assert |t[j].assignment| == |vars| && Rank(t[j].assignment) == j by {
        TruthTableSpec(origin);
      }
      assert '!' !in vars by {
        VariablesShape(origin);
      }
      MintermInjective(vars, b, t[j].assignment);
    } else if t[r].value {
      SigmaRow(vars, t, r);
    }
  }

  /** Sigma holds only minterms of full assignments, one per true row. */
  lemma SigmaShape(origin: string)
    requires TruthTable(origin).Success?
    ensures var t := TruthTable(origin).value;
      var vars := Variables(origin);
      && (forall m :: m in Sigma(vars, t) ==> exists b: seq<bool> :: |b| == |vars| && m == Minterm(vars, b))
      && |Sigma(vars, t)| == CountTrue(t)
  {
    var t := TruthTable(origin).value;
    var vars := Variables(origin);
    assert forall k :: 0 <= k < |t| ==> |t[k].assignment| == |vars| by {
      TruthTableSpec(origin);
    }
    SigmaMembers(vars, t);
    TruthTableDistinct(origin);
    VariablesShape(origin);
    SigmaSize(vars, t);
  }

  /** Sigma is empty, and the PDNF is the contradiction text, exactly when the formula is false under every assignment. */
  lemma ContradictionSpec(origin: string)
    requires TruthTable(origin).Success?
    ensures var vars := Variables(origin);
      (Sigma(vars, TruthTable(origin).value) == {} <==>
         forall b: seq<bool> :: |b| == |vars| ==> Evaluation(origin, Env(vars, b)) == Success(false))
  {
    var t := TruthTable(origin).value;
    var vars := Variables(origin);
    if Sigma(vars, t) == {} {
      forall b: seq<bool> | |b| == |vars|
        ensures Evaluation(origin, Env(vars, b)) == Success(false)
      {
        TruthTableRow(origin, b);
        SigmaComplete(origin, b);
      }
    } else {
      var m :| m in Sigma(vars, t);
      SigmaShape(origin);
      var b: seq<bool> :| |b| == |vars| && m == Minterm(vars, b);
      SigmaComplete(origin, b);
    }
  }

  /** Two formulas over the same variables get the same sigma exactly when they agree under every assignment. */
  lemma SigmaEqualSpec(f: string, g: string)
    requires TruthTable(f).Success? && TruthTable(g).Success?
    requires Variables(f) == Variables(g)
    ensures var vars := Variables(f);
      (Sigma(vars, TruthTable(f).value) == Sigma(vars, TruthTable(g).value) <==>
         forall b: seq<bool> :: |b| == |vars| ==> Evaluation(f, Env(vars, b)) == Evaluation(g, Env(vars, b)))
  {
    var vars := Variables(f);
    var sf, sg := Sigma(vars, TruthTable(f).value), Sigma(vars, TruthTable(g).value);
    if sf == sg {
      forall b: seq<bool> | |b| == |vars|
        ensures Evaluation(f, Env(vars, b)) == Evaluation(g, Env(vars, b))
      {
        TruthTableRow(f, b);
        TruthTableRow(g, b);
        SigmaComplete(f, b);
        SigmaComplete(g, b);
      }
    } else {
      var m :| m in sf <==> m !in sg;
      SigmaShape(f);
      SigmaShape(g);
      var b: seq<bool> :| |b| == |vars| && m == Minterm(vars, b);
      SigmaComplete(f, b);
      SigmaComplete(g, b);
      TruthTableRow(f, b);
      TruthTableRow(g, b);
    }
  }


  /** A formula whose every assignment of its variables evaluates to false. */
  ghost predicate Unsatisfiable(origin: string) {
    var vars := Variables(origin);
    forall b: seq<bool> :: |b| == |vars| ==> Evaluation(origin, Env(vars, b)) == Success(false)
  }

  /** Sigmas over different variables never share a minterm: every minterm spells out its own variables. */
  lemma SigmaDisjoint(f: string, g: string)
    requires TruthTable(f).Success? && TruthTable(g).Success?
    requires Variables(f) != Variables(g)
    ensures Sigma(Variables(f), TruthTable(f).value) !! Sigma(Variables(g), TruthTable(g).value)
  {
    var vf, vg := Variables(f), Variables(g);
    var sf, sg := Sigma(vf, TruthTable(f).value), Sigma(vg, TruthTable(g).value);
    if m :| m in sf && m in sg {
      SigmaShape(f);
      SigmaShape(g);
      var a: seq<bool> :| |a| == |vf| && m == Minterm(vf, a);
      var b: seq<bool> :| |b| == |vg| && m == Minterm(vg, b);
      VariablesShape(f);
      VariablesShape(g);
      DecodeMinterm(vf, a);
      DecodeMinterm(vg, b);
      assert false;
    }
  }

  /**
   * What equal sigmas mean: over the same variables, the two formulas agree on every
   * assignment; over different variables, both are unsatisfiable.
   */
  ghost predicate Equivalent(f: string, g: string) {
    if Variables(f) == Variables(g)
    then forall b: seq<bool> :: |b| == |Variables(f)| ==>
      Evaluation(f, Env(Variables(f), b)) == Evaluation(g, Env(Variables(f), b))
    else Unsatisfiable(f) && Unsatisfiable(g)
  }

  /**
   * When two formulas have the same sigma: over the same variables, exactly when they
   * agree on every assignment; over different variables, exactly when both are unsatisfiable.
   */
  lemma SigmaEquality(f: string, g: string)
    requires TruthTable(f).Success? && TruthTable(g).Success?
    ensures (Sigma(Variables(f), TruthTable(f).value) == Sigma(Variables(g), TruthTable(g).value)) <==> Equivalent(f, g)
  {
    var sf, sg := Sigma(Variables(f), TruthTable(f).value), Sigma(Variables(g), TruthTable(g).value);
    if Variables(f) == Variables(g) {
      SigmaEqualSpec(f, g);
    } else {
      SigmaDisjoint(f, g);
      ContradictionSpec(f);
      ContradictionSpec(g);
      assert sf == sg <==> sf == {} && sg == {};
      assert Equivalent(f, g) == (Unsatisfiable(f) && Unsatisfiable(g));
    }
  }

  /** `reduce(lambda a, b: a + '+' + b, parts)`: the left fold of the parts with `+` between them. */
  function JoinPlus(parts: seq<string>): string
    requires |parts| != 0
    decreases |parts|
  {
    if |parts| == 1 then parts[0] else JoinPlus(parts[..|parts| - 1]) + "+" + parts[|parts| - 1]
  }

  /** Joining one more part appends a `+` and that part. */
  lemma JoinPlusSnoc(parts: seq<string>, last: string)
    requires |parts| != 0
    ensures JoinPlus(parts + [last]) == JoinPlus(parts) + "+" + last
  {
    assert (parts + [last])[..|parts|] == parts;
  }

  /** The pieces of a string between its `+` signs; the partner of JoinPlus. */
  function Split(s: string): (parts: seq<string>)
    ensures |parts| != 0
    decreases |s|
  {
    if |s| == 0 then [""]
    else
      var init := Split(s[..|s| - 1]);
      var c := s[|s| - 1];
      if c == '+' then init + [""]
      else init[..|init| - 1] + [init[|init| - 1] + [c]]
  }

  /** One more character: a `+` opens a new piece, anything else extends the last one. */
  lemma SplitSnoc(s: string, c: char)
    ensures var p := Split(s);
      Split(s + [c]) == if c == '+' then p + [""] else p[..|p| - 1] + [p[|p| - 1] + [c]]
  {
    assert (s + [c])[..|s|] == s;
  }

  /** Appending `+`-free text extends the last piece. */
  lemma {:induction false} SplitExtend(s: string, t: string)
    requires '+' !in t
    ensures var p := Split(s);
      Split(s + t) == p[..|p| - 1] + [p[|p| - 1] + t]
    decreases |t|
  {
    var p := Split(s);
    var front, last := p[..|p| - 1], p[|p| - 1];
    if |t| == 0 {
      assert s + t == s;
      assert last + t == last;
      LastSplit(p);
    } else {
      var t', c := t[..|t| - 1], t[|t| - 1];
      assert '+' !in t' by {
        assert forall k :: 0 <= k < |t'| ==> t'[k] == t[k];
      }
      var q := front + [last + t'];
      assert Split(s + t') == q by {
        SplitExtend(s, t');
      }
      assert Split(s + t) == front + [(last + t') + [c]] by {
        AppendLast(s, t);
        SplitSnoc(s + t', c);
        assert q[..|q| - 1] == front;
      }
      AppendLast(last, t);
    }
  }

  /** Splitting the join of `+`-free parts gives the parts back. */
  lemma {:induction false} SplitJoin(parts: seq<string>)
    requires |parts| != 0
    requires forall k :: 0 <= k < |parts| ==> '+' !in parts[k]
    ensures Split(JoinPlus(parts)) == parts
    decreases |parts|
  {
    var last := parts[|parts| - 1];
    if |parts| == 1 {
      SplitExtend([], last);
      assert [] + last == last;
    } else {
      var init := parts[..|parts| - 1];
      SplitJoin(init);
      SplitJoinStep(init, last);
      LastSplit(parts);
    }
  }

  /** One more piece: if the join of init splits back into init, so does the join with `last` appended. */
  lemma SplitJoinStep(init: seq<string>, last: string)
    requires |init| != 0 && '+' !in last
    requires Split(JoinPlus(init)) == init
    ensures Split(JoinPlus(init + [last])) == init + [last]
  {
    var s := JoinPlus(init) + "+";
    SplitPlus(JoinPlus(init));
    SplitExtend(s, last);
    assert "" + last == last;
    assert (init + [last])[..|init|] == init;
  }

  /** A `+` opens a new, empty piece. */
  lemma SplitPlus(s: string)
    ensures Split(s + "+") == Split(s) + [""]
  {
    assert (s + "+")[..|s|] == s;
  }

  /** A set of strings made of letters and `!` only, as sigma is. */
  predicate OfLiterals(sigma: set<string>) {
    forall m :: m in sigma ==> forall c :: c in m ==> IsLetter(c) || c == '!'
  }

  /** A minterm over letters is made of letters and `!`. */
  lemma MintermOfLiterals(vars: seq<char>, values: seq<bool>)
    requires forall c :: c in vars ==> IsLetter(c)
    ensures OfLiterals({Minterm(vars, values)})
  {
    MintermAlphabet(vars, values);
  }

  /**
   * The text `pdnf` is a valid rendering of sigma: the contradiction text for an empty
   * sigma, and otherwise a `+`-join that splits into the elements of sigma, each once.
   */
  ghost predicate Renders(sigma: set<string>, pdnf: string) {
    if sigma == {} then pdnf == CONTRADICTION
    else multiset(Split(pdnf)) == multiset(sigma)
  }

  /** Joining the elements of a non-empty sigma, in any order that lists each once, renders it. */
  lemma JoinRenders(sigma: set<string>, order: seq<string>)
    requires OfLiterals(sigma) && sigma != {}
    requires |order| != 0 && multiset(order) == multiset(sigma)
    ensures Renders(sigma, JoinPlus(order))
  {
    forall k | 0 <= k < |order|
      ensures '+' !in order[k]
    {
      assert order[k] in multiset(order);
      assert order[k] in sigma;
    }
    SplitJoin(order);
  }

  /** The contradiction text is not the rendering of any non-empty set of minterms. */
  lemma ContradictionUnambiguous(sigma: set<string>)
    requires OfLiterals(sigma)
    requires sigma != {}
    ensures !Renders(sigma, CONTRADICTION)
  {
    var e: string := [];
    SplitExtend(e, CONTRADICTION);
    assert e + CONTRADICTION == CONTRADICTION;
    assert Split(e) == [""];
    assert Split(CONTRADICTION) == [CONTRADICTION];
    assert CONTRADICTION !in sigma by {
      assert CONTRADICTION[0] in CONTRADICTION && !IsLetter(CONTRADICTION[0]) && CONTRADICTION[0] != '!';
    }
    assert multiset(Split(CONTRADICTION))[CONTRADICTION] == 1;
    assert multiset(sigma)[CONTRADICTION] == 0;
  }
}
