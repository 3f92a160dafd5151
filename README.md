# PDNF of a propositional formula: a Dafny model of `PredicateFormula`

`PredicateFormula` (dnf.py) takes a propositional formula over single-letter variables. The
operators are `+` (OR), `*` (AND) and `!` (NOT), with parentheses and spaces. The class
computes the formula's principal disjunctive normal form (PDNF) in fixed stages. Each stage
method first reruns the stages before it, then overwrites its own field of the object:

1. the alphabet check;
2. variable extraction (the distinct letters, sorted);
3. preprocessing: drop spaces, cancel `!!` in the buffer, insert the implicit `*`;
4. infix-to-postfix conversion with an in-stack and an incoming priority table;
5. a stack machine that evaluates the postfix form under one assignment;
6. the truth table over all `2^n` assignments in `itertools.product` order, for `n <= 10`;
7. the minterms of the true rows, collected in the set `sigma`. The PDNF is their
   `+`-join, or `Contradictory Formula` when there are none.

It also has `__eq__`, which parses both formulas and compares their sigmas, and `equal`,
which compares the origin strings.

The model has one module per stage and one class:

- The pure modules define what each stage yields, as functions on values:
  - `Alphabet`, `Extraction`, `Preprocessing`, `Postfix`, `Evaluate`, `Tabulation`, `Pdnf`.
  - The lemmas beside each function prove what the stage promises.
- `Formula` holds the class `PredicateFormula`:
  - Its fields are those of the source, and each method updates only the fields its
    `modifies` clause names.
  - The loops of the source are methods with invariants: `PreprocessPass`, `ConvertTokens`,
    `RunPostfix`, `Tabulate`, `MintermOf`, `CollectMinterms` and `JoinSigma`.
  - Each loop method except `JoinSigma` is proved equal to its stage's function.
  - `JoinSigma` is proved to satisfy the relation `Pdnf.Renders`, which fixes the PDNF text up to the order of its minterms.
  - The methods of the class are proved against contracts that state their result and their new state in terms of those functions.
- `Wrappers` holds `Option`, `Result` and the error kinds. `Sequences` holds generic sequence
  facts.

Raised exceptions become `Failure` results:

| exception in the source | `Failure` error |
|---|---|
| illegal character | `IllegalCharacter` |
| empty formula | `EmptyFormula` |
| `None <= int` comparison of an unknown priority | `PriorityUndefined` |
| pop from an empty stack | `StackUnderflow` |
| variable missing from the assignment | `MissingValue` |
| more than ten variables | `TooManyVariables` |
| empty final stack | `SyntaxError` |

The model keeps the source's quirks as written:

- **Evaluation short-circuits.**
  - `*` pops a second value only when the first is true, and `+` only when it is false.
  - So `a+b*c` with a and c false and b true evaluates to true (`Evaluate.ShortCircuitExample`).
- **`(` is lost on the stack.**
  - Any non-variable token discards a `(` left on the top of the stack.
  - A `)` can pop a `(` into the output, where the evaluator ignores it (`Postfix.ToPostfixKeepsOpen`).
- **A space blocks the implicit `*`.**
  - Juxtaposition looks at the raw next character, so `a b` becomes `ab` (`Preprocessing.ProcessSpaceBlocksAnd`).
- **The last character is appended unconditionally.**
  - It is never skipped, even when it is a space, and never cancelled.
- **`sigma` is never cleared.**
  - Each `parse` adds the current formula's minterms to what is already there.
  - So `__eq__` compares accumulated sets.
  - Take two formulas whose sigma starts empty, as after construction (`Formula.EqUnparsed`):
    - over the same variables, they compare equal exactly when they agree under every assignment;
    - over different variables, their minterms are disjoint, so they compare equal exactly when both are unsatisfiable (`Pdnf.SigmaEquality`).
  - Once earlier parses have filled sigma, the answer can differ. For example, parse `b`, then set the origin to `a`; parse `a`, then set it to `b`. The two formulas now compare equal.

## Model

| member | source | states |
|---|---|---|
| Alphabet.IsLegal | dnf.py:28-33 | legal exactly when every character is a lowercase letter, `+`, `*`, `!`, a parenthesis or a space (the alphabet of lines 7-9) |
| Alphabet.Isp | dnf.py:35-37 | the in-stack priority is defined exactly for the three operators and both parentheses; `(` has priority 1 |
| Alphabet.Icp | dnf.py:39-41 | the incoming priority is defined exactly for the three operators and both parentheses; `(` has priority 10 |
| Extraction.ExtractVariables | dnf.py:52-67 | fails exactly for the empty string or one with an illegal character; otherwise the result is strictly sorted and holds exactly the letters of the origin |
| Extraction.VariablesSpec | dnf.py:58-65 | the reference variable list is strictly sorted and holds exactly the letters of the string |
| Extraction.SortedUnique | dnf.py:65 | two strictly sorted lists with the same elements are equal, so the sorted list of distinct letters is unique |
| Extraction.SortLetters | dnf.py:65 | sorting a duplicate-free list gives a strictly sorted list of the same length and the same elements |
| Formula.PredicateFormula.ExtractVariable | dnf.py:52-67 | returns the extraction result; on success logic_var holds it, on failure logic_var is unchanged |
| Formula.PredicateFormula.New | dnf.py:13-26 | fails exactly for an illegal origin; no origin gives the empty formula; a new formula has a legal origin, an empty sigma, and empty processed, postfix_exp, pdnf, logic_var and truth_table |
| Formula.PredicateFormula.constructor | dnf.py:13-26 | a legal origin is kept and every derived field starts empty |
| Formula.PredicateFormula.SetFormula | dnf.py:43-50 | no formula returns none and changes nothing; an illegal one fails and changes nothing; a legal one replaces the origin and is returned |
| Formula.PreprocessPass | dnf.py:74-88 | the loop over all characters but the last, followed by the last character, computes the preprocessed string |
| Formula.PredicateFormula.ProcessFormula | dnf.py:69-90 | returns the preprocessing result (failing as extraction fails); on success logic_var and processed hold the variables and the result |
| Preprocessing.StepCounts | dnf.py:80-85 | one step adds an AND exactly at a juxtaposition site and removes two NOTs exactly when it cancels a pair |
| Preprocessing.CancelCounts | dnf.py:81-82 | cancelling removes exactly two NOTs and no AND |
| Preprocessing.ProcessAnds | dnf.py:83-85 | the output has exactly as many ANDs as the origin plus one per position whose character is a variable or `)` and whose raw successor is a variable, `(` or `!` |
| Preprocessing.ProcessNots | dnf.py:81-82 | NOTs are only removed, two per cancellation |
| Preprocessing.ProcessNoDoubleNot | dnf.py:80-86 | no two adjacent NOTs remain before the last character |
| Preprocessing.ProcessSpaces | dnf.py:78-86 | no space remains before the last character, and the last character is the origin's last character |
| Preprocessing.ProcessSkeleton | dnf.py:77-86 | all characters other than NOT, AND and space survive, in their order |
| Preprocessing.ProcessLegal | dnf.py:77-86 | preprocessing a legal string gives a legal string |
| Preprocessing.PreprocessLegal | dnf.py:69-90 | a successful preprocessing is legal and keeps the origin's skeleton |
| Preprocessing.PreprocessDoubleNot | dnf.py:69-90 | for every non-empty `s`, `!!s` and `s` preprocess to the same result: the same string, or the same illegal-character failure |
| Preprocessing.ProcessJuxtaposed | dnf.py:83-85 | `ab` gives `a*b`, `a(b+c)` gives `a*(b+c)` and `a!b` gives `a*!b` |
| Preprocessing.ProcessFourNots | dnf.py:81-82 | `!!!!a` gives `a` |
| Preprocessing.ProcessSpaceBlocksAnd | dnf.py:78-85 | `a b` gives `ab`: the space keeps the implicit AND out |
| Formula.ConvertTokens | dnf.py:96-112 | the conversion loop and the final drain compute the postfix form, failing on an undefined priority comparison |
| Formula.PredicateFormula.ToPostfixExp | dnf.py:92-115 | returns the postfix form of the origin; logic_var, processed and postfix_exp hold their stages' results where those succeed and keep their values where they fail |
| Postfix.ConvertAccounted | dnf.py:99-112 | the conversion keeps every variable in input order and never on the stack, every token other than a parenthesis in output or stack, and `)` nowhere |
| Postfix.ToPostfixFacts | dnf.py:99-112 | the output keeps the variables in input order, holds every `+`, `*`, `!` as often as the input, never holds `)` and holds no more `(` than the input |
| Postfix.PostfixOfFacts | dnf.py:92-115 | across the first three stages, the variables reach the postfix form in their order in the origin, every `+` exactly once, and no `)` |
| Postfix.ToPostfixPrecedence | dnf.py:104-112 | `a+b*c` gives `abc*+` |
| Postfix.ToPostfixNot | dnf.py:104-112 | `!a*b` gives `a!b*` |
| Postfix.ToPostfixKeepsOpen | dnf.py:104-109 | `(a)` gives `a(`: the `)` pops the `(` into the output |
| Formula.RunPostfix | dnf.py:121-136 | the evaluation loop computes the stack machine's value, with the short-circuit pops, the errors and the final syntax check |
| Formula.PredicateFormula.CalcPostfixExp | dnf.py:117-136 | returns the value of the origin under the assignment; the stage fields are as after the postfix conversion |
| Evaluate.ExecKeepsNonEmpty | dnf.py:124-132 | a token that executes never empties a non-empty stack |
| Evaluate.RunKeepsNonEmpty | dnf.py:124-132 | a successful run from a non-empty stack ends non-empty |
| Evaluate.RunNoSyntaxError | dnf.py:124-132 | the machine itself never reports a syntax error |
| Evaluate.RunFromEmpty | dnf.py:121-133 | from an empty stack the run ends empty exactly when every token is neither a variable nor an operator |
| Evaluate.EvalSyntaxError | dnf.py:134-135 | a syntax error occurs exactly when the postfix form holds no variable and no operator |
| Evaluate.RunWithoutVariables | dnf.py:124-133 | with no variables, a run from the empty stack either ends empty or underflows |
| Evaluate.EvalWithoutVariables | dnf.py:124-136 | with no variables, evaluation always fails |
| Evaluate.ShortCircuitExample | dnf.py:129-132 | `abc*+` with a and c false and b true evaluates to true |
| Tabulation.RankBound | dnf.py:147 | the binary number of an assignment is below `2^n` |
| Tabulation.RankInjective | dnf.py:147 | assignments of one length with the same binary number are equal |
| Tabulation.ProductRows | dnf.py:147 | the product has `2^n` rows, and row k is the n-digit binary numeral of k, False first |
| Tabulation.ProductComplete | dnf.py:147 | every assignment of n values is in the product, at its binary number |
| Tabulation.ProductDistinct | dnf.py:147 | no two positions of the product hold the same assignment |
| Tabulation.EnvKeys | dnf.py:148 | the dictionary built from one value per variable has exactly the variables as keys |
| Tabulation.EnvLookup | dnf.py:148 | for distinct variables, the dictionary maps each variable to its own value |
| Tabulation.RowsSpec | dnf.py:152-153 | the rows are computed exactly when every assignment evaluates, and row k pairs assignment k with its value |
| Tabulation.RowsPrefixFailure | dnf.py:152-153 | the first failing assignment makes the whole table fail with its error |
| Formula.Tabulate | dnf.py:142-156 | the table loop refuses more than ten variables, then evaluates every assignment in product order |
| Formula.PredicateFormula.CalcTruthTable | dnf.py:138-156 | returns the truth table of the origin; truth_table holds it on success and is unchanged on failure |
| Tabulation.TruthTableSpec | dnf.py:138-156 | a computed table has between one and ten variables, `2^n` rows, row k assigns the binary digits of k, and each row holds the formula's value under its assignment |
| Tabulation.TruthTableRow | dnf.py:147-153 | every assignment of the variables has its row, at its binary number, holding its value |
| Tabulation.TruthTableDistinct | dnf.py:147 | no two rows share an assignment |
| Tabulation.TruthTableFailure | dnf.py:142-153 | more than ten variables fail; otherwise the table exists exactly when every assignment evaluates |
| Tabulation.TruthTableStages | dnf.py:138-140 | a computed table implies a computed postfix form, letter variables and full-length rows |
| Pdnf.DecodeMinterm | dnf.py:190-194 | a minterm decodes back to its variables and values |
| Pdnf.MintermInjective | dnf.py:190-194 | distinct assignments of the same variables give distinct minterms |
| Pdnf.MintermAlphabet | dnf.py:190-194 | a minterm holds only variables and `!` |
| Formula.MintermOf | dnf.py:190-194 | the literal loop builds the minterm: each variable in order, with `!` before it when it is false |
| Pdnf.SigmaMembers | dnf.py:185-196 | sigma holds exactly the minterms of the true rows |
| Pdnf.SigmaSize | dnf.py:185-196 | with distinct full-length assignments, sigma has one element per true row |
| Pdnf.SigmaRow | dnf.py:185-196 | a true row contributes its minterm |
| Pdnf.SigmaWitness | dnf.py:185-196 | every element of sigma comes from a true row |
| Pdnf.SigmaComplete | dnf.py:185-196 | an assignment's minterm is in sigma exactly when the formula evaluates to true under it |
| Pdnf.SigmaShape | dnf.py:185-196 | sigma holds only minterms of full assignments, one per true row |
| Formula.CollectMinterms | dnf.py:185-196 | the row loop adds the minterm of every true row to the given set |
| Pdnf.SplitJoin | dnf.py:199-200 | splitting the `+`-join of `+`-free parts at `+` gives the parts back |
| Pdnf.JoinRenders | dnf.py:199-201 | joining the elements of a non-empty sigma in any order that lists each once gives a text whose pieces are exactly sigma |
| Pdnf.ContradictionUnambiguous | dnf.py:199-201 | the contradiction text is not the join of any non-empty sigma |
| Formula.JoinSigma | dnf.py:199-201 | the join loop gives the contradiction text for an empty sigma and otherwise a text whose `+`-pieces are sigma, each once, whatever order the set yields |
| Formula.Summarise | dnf.py:185-201 | after a successful table, sigma grows by the table's minterms and the PDNF renders the new sigma; after a failure nothing changes |
| Formula.PredicateFormula.Parse | dnf.py:180-202 | succeeds (returning true) exactly when the truth table does; then sigma grows by the minterms of the true rows and the PDNF renders all of sigma; on failure truth_table, sigma and pdnf keep their values |
| Pdnf.ContradictionSpec | dnf.py:199-201 | sigma is empty, so the PDNF is the contradiction text, exactly when the formula is false under every assignment |
| Pdnf.SigmaEqualSpec | dnf.py:204-211 | over the same variables, two formulas have equal sigmas exactly when they agree under every assignment |
| Pdnf.SigmaDisjoint | dnf.py:204-211 | formulas over different variables have disjoint sigmas |
| Pdnf.SigmaEquality | dnf.py:204-211 | equal sigmas mean agreement under every assignment for the same variables, and unsatisfiability of both for different variables |
| Formula.PredicateFormula.Compared | dnf.py:204-211 | the state `__eq__` leaves behind: both origins unchanged; the answer is the first parse error, else sigma equality; a failed parse leaves that formula's table, sigma and PDNF unchanged (and the other formula untouched when the first parse fails); each successful parse grows its sigma by its own minterms and renders its PDNF |
| Formula.PredicateFormula.Eq | dnf.py:204-211 | a non-formula gives false and changes nothing; otherwise the new state is as `Compared` states, even when both sides are the same object |
| Formula.PredicateFormula.Compare | dnf.py:207-211 | with the other object known to be a formula, parsing both and comparing sigmas yields the state `Compared` states, changing only the fields parsing writes |
| Pdnf.Equivalent | dnf.py:204-211 | what equal sigmas mean for two formulas: agreement under every assignment over the same variables, and unsatisfiability of both over different ones |
| Formula.EqUnparsed | dnf.py:204-211 | for a comparison that starts from two empty sigmas (the state `Compared` describes), `__eq__` fails exactly when either truth table fails, and otherwise answers true exactly when the formulas are equivalent |
| Formula.PredicateFormula.Equal | dnf.py:213-217 | true only for two formulas, and then their truth tables agree because their origins are equal |
| Extraction.Variables | dnf.py:58-65 | the reference variable list: the alphabet's letters, in order, that occur in the string |
| Preprocessing.Step | dnf.py:78-85 | one iteration: a space is skipped; otherwise the character is appended, a trailing `!!` is cancelled, and `*` is appended at a juxtaposition site |
| Preprocessing.Buffer | dnf.py:77-85 | the buffer after the iterations over the first i characters |
| Preprocessing.Process | dnf.py:77-88 | the buffer after every character but the last, followed by the last character |
| Preprocessing.Preprocess | dnf.py:69-90 | extraction of the variables (failing as it fails), then the pass |
| Postfix.PopWhile | dnf.py:102-105 | pops to the output while the incoming priority is at most the in-stack priority of the top; an undefined priority fails |
| Postfix.Shunt | dnf.py:99-109 | one token: a variable goes to the output; any other token pops, discards a `(` left on top, and is pushed unless it is `)` |
| Postfix.Convert | dnf.py:99-112 | the tokens one at a time, then the stack popped onto the output |
| Postfix.ToPostfix | dnf.py:96-112 | the conversion from an empty stack and output |
| Postfix.PostfixOf | dnf.py:92-115 | preprocessing, then conversion over the extracted variables |
| Evaluate.Exec | dnf.py:124-132 | one token: a variable pushes its value (missing: failure); `!` negates the top; `*` and `+` pop a second value only when the first does not decide; an empty stack underflows; other tokens are skipped |
| Evaluate.Run | dnf.py:121-132 | the tokens one at a time from the given stack, stopping at the first failure |
| Evaluate.Eval | dnf.py:121-136 | the run from the empty stack; an empty final stack is a syntax error, otherwise the top is the value |
| Evaluate.Evaluation | dnf.py:117-136 | the postfix form of the origin evaluated under the assignment |
| Tabulation.Product | dnf.py:147 | `itertools.product([False, True], repeat=n)`: all assignments of length n, False first, the last position varying fastest |
| Tabulation.Env | dnf.py:148 | `dict(zip(vars, values))` |
| Tabulation.Rows | dnf.py:147-153 | each assignment evaluated in turn into a row; the first failure stops the table |
| Tabulation.Table | dnf.py:142-153 | more than ten variables fail; otherwise the rows of every assignment in product order |
| Tabulation.TruthTable | dnf.py:138-156 | the postfix form of the origin, then its table over the origin's variables |
| Pdnf.Minterm | dnf.py:190-194 | the literals of the assignment in variable order, `!v` for a false v and `v` for a true one |
| Pdnf.Sigma | dnf.py:185-196 | the minterms of the true rows |
| Pdnf.JoinPlus | dnf.py:199-200 | `reduce(lambda a, b: a + '+' + b, parts)` |
| Pdnf.Renders | dnf.py:199-201 | the contradiction text for an empty sigma; otherwise a text whose `+`-pieces are the elements of sigma, each once |

## Left out

- main.py, `truth_table_print` and `__str__` are not part of this model: they read a file and format console output.
- Each row of the truth table is evaluated on the postfix form already computed. The source calls `calc_postfix_exp`, which reruns the first three stages on every row; they yield the same result each time, because the origin does not change.
- `str.isspace` is modelled as the test for `' '`. Space is the only whitespace character in the legal alphabet, and preprocessing runs only after the legality check.
- The Python exception types are modelled as the `Error` kinds of a `Failure` result. The unreachable `return None` after the raise at dnf.py:144 is left out.
- An argument of `__eq__` or `equal` that is not a `PredicateFormula` is modelled as `null`.
- Formula.JoinSigma: the order in which a Python set yields its elements is unspecified. The PDNF text is therefore stated up to order: its `+`-pieces are exactly sigma, each once.
- Formula.PredicateFormula.Eq: its contract states what `__eq__` computes, which is sigma equality after both parses. The meaning of that equality in terms of the formulas' values is stated by `Formula.EqUnparsed` only for formulas whose sigma starts empty. With an accumulated sigma the answer has no meaning in terms of the current origins.
- `itertools.product` and `functools.reduce` are modelled by their meaning: `Tabulation.Product` is binary counting with False first, and `Pdnf.JoinPlus` is the left fold with `+`.
- `list.sort` is modelled by an insertion sort, `Extraction.SortLetters`. It is proved to give the unique strictly sorted list of the letters.
- Dictionary iteration order in `parse` is modelled as the variable order. Insertion order in `dict(zip(...))` is the order of the sorted variable list.
