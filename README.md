# ft_ready_set_boole in Dafny

A verified model of the working core of ft_ready_set_boole, a small Rust
toolkit for propositional formulas written in reverse-Polish notation, and
of its three bit-level helpers. Each source file is one Dafny module:

- `Formula` (src/operator.rs): the formula tree `Operator`, its
  constructors, the stack parser `from_formula` and the postfix printer
  `to_string`. The parser is a method with a loop, proved equal to the
  function `Parse`. Printing a tree whose variables are upper-case and
  parsing the text gives the tree back; parsing a text and printing the
  tree gives the text back, upper-cased.
- `TruthTable` (src/truth_table.rs): `operands_in_formula`, the fold that
  collects the distinct variables in order of first occurrence. The file's
  private parser `nodes_from_formula` takes the same branches, pops and
  panics as `from_formula` in src/operator.rs and adds only a debug print,
  so its tests are stated of `Formula.Parse` (see Left out for how the
  private copy of the tree differs).
- `SetEvaluation` (src/set_evaluation.rs): the sorted variable list, the
  set semantics `solve` over `set<int>`, and the entry point `eval_set`
  with its failure cases.
- `Evaluation` (src/evaluation.rs): the stack machine `eval_formula`
  over the constants `1` and `0`. It is proved against a tree of
  constants and its value.
- `Adder` (src/adder.rs): the 64-bit ripple-carry adder, proved to
  compute the sum modulo 2^64.
- `Multiplier` (src/multiplier.rs): the 32-bit shift-and-OR loop, proved
  against the function `ShiftOr`, and what its bits mean. `Product` is the
  shift-and-add loop the source evidently intended.
- `Gray` (src/gray_code.rs): `n ^ (n >> 1)` on `u32` values. It is proved
  invertible, to preserve bounds, and to change one bit between
  neighbours.
- `Outcomes`: the shared `Option`, `Result` and `Error` types. Every
  panic of the source becomes an `Err` value with its reason.

Three behaviours of the code are modelled as written, although they are
not what the operators' usual names suggest:

- Set `Xor` computes the union of its operands, not their symmetric
  difference. The test at src/set_evaluation.rs:157-159 asserts this
  outcome.
- The constant evaluator reads `>` from right to left: it is false only
  when the right operand is 1 and the left one 0
  (src/evaluation.rs:110-116).
- The function `multiplier` ORs its partial products instead of adding
  them. Its name and its tests at src/multiplier.rs:18-37 intend
  multiplication (see Findings).

## Model

| member | source | states |
|---|---|---|
| Formula.ToUpper | src/operator.rs:13-15 | `to_uppercase` on ASCII: a lower-case letter becomes its own capital (same place in the alphabet), every other character, upper-case letters included, is unchanged |
| Formula.UpperCase | src/operator.rs:44-46 | the text with each character upper-cased, position by position, length unchanged |
| Formula.NewOperand | src/operator.rs:13-15 | `operand` builds a variable node whose symbol is upper-case exactly when the input is a letter, the capital of the same letter for a lower-case input, and the input itself otherwise |
| Formula.WithTwo | src/operator.rs:17-26 | `with_two` succeeds exactly for `& \| ^ > =`, builds a binary node with the two arguments as left and right child and that token as its symbol, and fails with `InvalidOperatorToken` otherwise |
| Formula.NewAnd | src/operator.rs:28-30 | `and` is `with_two('&', ..)` |
| Formula.NewOr | src/operator.rs:32-34 | `or` is `with_two('\|', ..)` |
| Formula.NewNot | src/operator.rs:36-38 | `not` wraps its argument in a `Not` node, whose symbol is `!` |
| Formula.ToString | src/operator.rs:68-78 | the postfix text has one character per node and ends with the root's symbol |
| Formula.Step | src/operator.rs:43-60 | one token: underflow exactly when fewer nodes than it pops, invalid token exactly when enough nodes but not a token; on success the stack below the popped nodes is kept and one node is pushed |
| Formula.Run | src/operator.rs:43-61 | a successful run consumed only tokens and leaves a non-empty stack unless it started empty on empty text |
| Formula.Parse | src/operator.rs:40-66 | `None` exactly for the empty formula; success implies every character is a token |
| Formula.FromFormula | src/operator.rs:40-66 | the stack loop returns what `Parse` specifies, failures included |
| Formula.RunToString | src/operator.rs:40-78 | parsing the text of a tree with upper-case variables pushes exactly that tree |
| Formula.StepBinary | src/operator.rs:55-58 | a binary token takes the top node as right child and the one beneath as left child |
| Formula.ParseToString | src/operator.rs:40-78 | round trip: a tree with upper-case variables parses back from its text |
| Formula.StepFlatten | src/operator.rs:43-60 | after one token the printed stack grows by that token, upper-cased, and all variables stay upper-case |
| Formula.RunFlatten | src/operator.rs:43-61 | after any text the printed stack grows by that text, upper-cased |
| Formula.ToStringParse | src/operator.rs:40-78 | converse round trip: a parsed formula has upper-case variables and prints as its own text, upper-cased |
| Formula.ToStringParseUpper | src/operator.rs:40-78 | text without lower-case letters that parses prints back as itself |
| Formula.ParseExamplesSimple | src/operator.rs:85-124 | `""` gives `None`; `A`, `AB&`, `A!`, `A!!` give the trees the tests expect |
| Formula.ParseLowerCase | src/operator.rs:13-15 | `a` parses to the variable `A` |
| Formula.ParseLeftNested | src/operator.rs:132-144 | `AB&C\|` is `Or(And(A,B),C)` |
| Formula.ParseRightNested | src/operator.rs:146-158 | `ABC\|&` is `And(A,Or(B,C))` |
| Formula.ParseDeeplyNested | src/operator.rs:160-176 | `ABCD\|\|=` is `Equals(A,Or(B,Or(C,D)))` |
| Formula.ParseTwoTrees | src/operator.rs:62-64 | any two complete formulas written one after the other fail with `TooManyOperands` |
| Formula.ParseTooManyOperands | src/operator.rs:126-130 | `ABB&` fails because two nodes remain |
| Formula.ParseUnderflow | src/operator.rs:50-56 | `&`, `A&` and `!` fail on a pop from an empty stack |
| Formula.ParseBadToken | src/operator.rs:24 | two trees followed by a non-token character fail with `InvalidOperatorToken` |
| Formula.ParseInvalidToken | src/operator.rs:24 | `AB+` fails with `InvalidOperatorToken` |
| TruthTable.FirstOccurrences | src/truth_table.rs:62-72 | the result holds only letters of the formula, holds every letter of it, has no duplicates and is no longer than the formula |
| TruthTable.OperandsInFormula | src/truth_table.rs:62-72 | the fold into an accumulator returns `FirstOccurrences` of the formula |
| TruthTable.FirstIndex | src/truth_table.rs:62-72 | where a character first occurs: it is there and not before |
| TruthTable.FirstIndexUnique | src/truth_table.rs:62-72 | the first occurrence is the only position without an earlier copy |
| TruthTable.FirstOccurrencesOrdered | src/truth_table.rs:62-72 | the collected variables come in the order of their first occurrence |
| TruthTable.FirstOccurrencesSnoc | src/truth_table.rs:66-71 | one more character is appended exactly when it is a letter not yet collected |
| TruthTable.OperandsExample | src/truth_table.rs:107-112 | `AB&` gives `AB` |
| TruthTable.OperandsNoDoubles | src/truth_table.rs:114-119 | `ABB&` gives `AB` |
| TruthTable.OperandsComplicated | src/truth_table.rs:121-126 | `ABCD\|\|=E` gives `ABCDE` |
| TruthTable.OperandsKeepCase | src/truth_table.rs:62-72 | variables are kept as written: `aA&` gives `aA` |
| TruthTable.ParseUpperCases | src/truth_table.rs:13-15 | the parser upper-cases: `aA&` is `And(A,A)` |
| TruthTable.NodesFromFormulaExamples | src/truth_table.rs:97-181 | the parser tests of this file, including `ABB&` failing |
| SetEvaluation.Insert | src/set_evaluation.rs:15 | inserting into a sorted sequence keeps it sorted and adds exactly the one element |
| SetEvaluation.Sort | src/set_evaluation.rs:15 | `sort` returns a sorted permutation |
| SetEvaluation.SortDistinct | src/set_evaluation.rs:5-17 | sorting a duplicate-free sequence orders it strictly |
| SetEvaluation.SortedOperands | src/set_evaluation.rs:5-17 | the variables in strictly ascending order, exactly the letters of the formula |
| SetEvaluation.OperandsInFormula | src/set_evaluation.rs:5-17 | collecting then sorting gives `SortedOperands`: strictly ascending, exactly the formula's letters |
| SetEvaluation.Solve | src/set_evaluation.rs:19-64 | `solve` has a value exactly when every variable of the tree is bound |
| SetEvaluation.SolveWithinUniverse | src/set_evaluation.rs:19-64 | every result lies within the union of the bound sets |
| SetEvaluation.SolvePointwise | src/set_evaluation.rs:21-36 | on `Not`, `And` and `Or`, an element is in the result exactly when the formula holds with each variable true where its set holds the element |
| SetEvaluation.XorIsUnion | src/set_evaluation.rs:37-43 | `Xor` as written yields the union of its operands' sets |
| SetEvaluation.XorNotPointwise | src/set_evaluation.rs:37-43 | so it is not the boolean `Xor` taken element-wise: `{1}` with `{1}` keeps 1 |
| SetEvaluation.ImpliesEqualsSubsets | src/set_evaluation.rs:44-62 | `Implies` gives the left set when it is a subset of the right one and the empty set otherwise; `Equals` gives the left set when the two are equal and the empty set otherwise |
| SetEvaluation.Bind | src/set_evaluation.rs:76-82 | the keys are exactly the variables paired with a set; without repeated variables the i-th variable is bound to the elements of the i-th vector |
| SetEvaluation.BindUniverse | src/set_evaluation.rs:76-82 | with one set per distinct variable, the union of the bound sets is the integers supplied |
| SetEvaluation.EvalSetOf | src/set_evaluation.rs:66-85 | fails with `ArityMismatch` exactly when the set count differs from the variable count; with matching counts a parse failure is passed through unchanged; fails with `EmptyFormula` exactly for the empty formula with no sets; a result contains only supplied integers |
| SetEvaluation.EvalSet | src/set_evaluation.rs:66-85 | the entry point returns what `EvalSetOf` specifies |
| SetEvaluation.EvalSetSolved | src/set_evaluation.rs:66-85 | a parsed formula with matching arity and every variable bound evaluates to its tree's set |
| SetEvaluation.EvalSetUnbound | src/set_evaluation.rs:21 | a variable without a set is the failing `unwrap`, reported as `UnboundVariable` |
| SetEvaluation.ParseErrors | src/operator.rs:40-66 | the parser fails only with underflow, leftover operands or an invalid token |
| SetEvaluation.StrictlySortedUnique | src/set_evaluation.rs:15 | a strictly sorted sequence is determined by its elements |
| SetEvaluation.SymbolsToString | src/operator.rs:68-78 | the variables of a tree are the letters of its text |
| SetEvaluation.NoUnboundVariable | src/set_evaluation.rs:66-85 | without lower-case letters no variable is ever unbound |
| SetEvaluation.LowerCaseUnbound | src/set_evaluation.rs:21 | `a` with `[[1]]` fails: bound as `a`, looked up as `A` |
| SetEvaluation.EvalAB | src/set_evaluation.rs:66-85 | a tree over `A` and `B` with two vectors evaluates over the first as `A` and the second as `B` |
| SetEvaluation.EvalA | src/set_evaluation.rs:66-85 | a tree over `A` with one vector evaluates over that set |
| SetEvaluation.ArityTooFewSets | src/set_evaluation.rs:91-96 | `A\|B` with one set fails with `ArityMismatch` |
| SetEvaluation.ArityEmptyFormula | src/set_evaluation.rs:98-103 | `""` with one set fails with `ArityMismatch` before the empty formula is seen |
| SetEvaluation.DisjunctionExample | src/set_evaluation.rs:105-110 | `AB\|B\|` over `[1],[2]` gives `{1,2}` |
| SetEvaluation.ConjunctionExamples | src/set_evaluation.rs:112-121 | `AB&` gives `{}` and `{1}` |
| SetEvaluation.NegationSingle | src/set_evaluation.rs:125-127 | `A!` over `[1]` gives `{}` |
| SetEvaluation.NegationUnion | src/set_evaluation.rs:129-131 | `AB\|!` gives `{}` |
| SetEvaluation.NegationOperand | src/set_evaluation.rs:133-136 | `AB!\|` gives `{1,3}` |
| SetEvaluation.EqualsExamples | src/set_evaluation.rs:139-148 | `AB=` gives `{}` and `{1}` |
| SetEvaluation.XorExamples | src/set_evaluation.rs:150-160 | `AB^` gives `{1,2}` and `{1}` |
| SetEvaluation.ImpliesExamples | src/set_evaluation.rs:162-175 | `AB>` gives `{}`, `{}` and `{1}` |
| Evaluation.FromChar | src/evaluation.rs:64-76 | accepts exactly `10!&\|^>=`, each read as the token it stands for; anything else fails |
| Evaluation.FromCharChar | src/evaluation.rs:64-84 | every token reads back from its character; only `1` and `0` are operands |
| Evaluation.IsOperand | src/evaluation.rs:78-84 | `is_operand` holds exactly for the tokens read from `1` and `0` |
| Evaluation.Evaluate | src/evaluation.rs:87-126 | succeeds exactly for the five binary connectives, always with a constant; `!` and the constants fail |
| Evaluation.EvaluateTruthTable | src/evaluation.rs:87-126 | `&`, `\|`, `^`, `=` are the usual truth tables; `>` is false only when the right operand is 1 and the left 0 |
| Evaluation.EvalStep | src/evaluation.rs:134-158 | a character succeeds exactly when it is a constant or a binary connective with two values below; underflow and the rejected `!` exactly in their cases; a connective lowers the depth by one and keeps the rest |
| Evaluation.EvalRun | src/evaluation.rs:134-159 | a successful run saw only constants and binary connectives and leaves only constants |
| Evaluation.EvalFormulaOf | src/evaluation.rs:128-161 | the empty formula gives `true`; a formula containing `!` never succeeds |
| Evaluation.EvalFormula | src/evaluation.rs:128-161 | the loop returns what `EvalFormulaOf` specifies |
| Evaluation.EvalRunPostfix | src/evaluation.rs:134-159 | running the text of a tree pushes the tree's value |
| Evaluation.EvalFormulaCorrect | src/evaluation.rs:128-161 | the evaluator computes the value of the tree its text writes |
| Evaluation.LeftoverIgnored | src/evaluation.rs:160 | a complete formula left beneath the top value is ignored, not rejected |
| Evaluation.EvalExamples | src/evaluation.rs:174-179 | `10&` false, `10\|` true, `11>` true, `10=` false |
| Evaluation.EvalNestedExamples | src/evaluation.rs:176-180 | `10\|1&` and `101\|&` true |
| Evaluation.EvalDeepExample | src/evaluation.rs:181 | `1011\|\|=` true |
| Evaluation.ImpliesReversed | src/evaluation.rs:110-116 | `10>` true and `01>` false |
| Evaluation.NegationExamples | src/evaluation.rs:124 | `11!` fails in `evaluate` after both pops; `1!` fails on the second pop |
| Evaluation.InvalidCharacter | src/evaluation.rs:74 | a letter is rejected by `from_char` |
| Adder.WrappingAdd | src/adder.rs:1-13 | the result is the sum, or the sum less 2^64 exactly when the sum does not fit |
| Adder.FullAdder | src/adder.rs:8-9 | the sum bit and twice the majority carry count the ones among the three inputs |
| Adder.BitSplit | src/adder.rs:5-6 | the low `i + 1` bits are the low `i` bits plus bit `i` |
| Adder.Add | src/adder.rs:1-13 | the loop returns the sum modulo 2^64 |
| Adder.WrappingAddCommutes | src/adder.rs:6-9 | the order of the operands does not matter |
| Adder.AddExamples | src/adder.rs:19-41 | 2+2=4, 2+0=2, 0+0=0, MAX+0=MAX, and MAX+1 wraps to 0 |
| Multiplier.MaskBit | src/multiplier.rs:4-5 | `b & (1 << i) > 0` tests bit `i` |
| Multiplier.ShiftedBit | src/multiplier.rs:7 | bit `k` of `a << j` is bit `k - j` of `a`, and clear below `j` |
| Multiplier.LoopStep | src/multiplier.rs:4-8 | one round ORs `a << i` in exactly when bit `i` of `b` is set |
| Multiplier.Multiply | src/multiplier.rs:1-11 | the loop returns `ShiftOr(a, b, 32)`, the OR of all partial products |
| Multiplier.ResultBit | src/multiplier.rs:3-9 | bit `k` of the result is set exactly when some `i <= k` has bit `i` of `b` and bit `k - i` of `a` set |
| Multiplier.BitsDetermine | src/multiplier.rs:1-11 | two words with the same 32 bits are equal |
| Multiplier.Commutes | src/multiplier.rs:3-9 | the result does not depend on the order of the operands |
| Multiplier.HasPairSingle | src/multiplier.rs:3-9 | with `b = 2^k`, bit `j` of the result is bit `j - k` of `a` |
| Multiplier.PowerOfTwo | src/multiplier.rs:3-9 | with `b = 2^k` the result is `a << k` |
| Multiplier.ShiftOr | src/multiplier.rs:1-11 | the OR of the first `n` partial products, what `multiplier` computes; a zero operand on either side gives 0 (its bits are stated by `ResultBit`) |
| Multiplier.MultiplyExamples | src/multiplier.rs:18-37 | (2,2) gives 4, (0,0) gives 0, (MAX/2,2) gives MAX-1 |
| Multiplier.ThreeTimesThree | src/multiplier.rs:7 | (3,3) gives 7, which is not 9 |
| Multiplier.ProductStep | src/multiplier.rs:4-8 | one shift-and-add round extends the product by bit `i` of `b` |
| Multiplier.Product | src/multiplier.rs:1-11 | the corrected loop returns `a * b` modulo 2^32 |
| Gray.XorBits | src/gray_code.rs:2 | `^` on values is bitwise: a bit of the result is set exactly when it is set in one operand only |
| Gray.XorAssociates | src/gray_code.rs:2 | `^` is associative |
| Gray.Cancel | src/gray_code.rs:2 | XOR-ing the same value twice gives back what was there |
| Gray.XorBound | src/gray_code.rs:2 | XOR of two values below `2^k` is below `2^k` |
| Gray.GrayCode | src/gray_code.rs:1-3 | `gray_code` maps a `u32` to a `u32` that `Decode` maps back to it, and only 0 to 0 |
| Gray.CodeBits | src/gray_code.rs:1-3 | bit `i` of the code is bit `i` of `n` XOR bit `i + 1` |
| Gray.CodeHalf | src/gray_code.rs:1-3 | shifting the code right is coding the shifted number |
| Gray.CodeZero | src/gray_code.rs:1-3 | only 0 codes to 0 |
| Gray.DecodeCode | src/gray_code.rs:1-3 | the XOR of all right shifts of the code gives `n` back |
| Gray.Injective | src/gray_code.rs:1-3 | different `u32` values have different codes |
| Gray.Bound | src/gray_code.rs:1-3 | `n < 2^k` implies a code below `2^k` |
| Gray.TopBit | src/gray_code.rs:1-3 | bit 31 of the code is bit 31 of `n` |
| Gray.Adjacent | src/gray_code.rs:1-3 | the codes of `n` and `n + 1` differ in exactly one bit, at the lowest clear bit of `n` |
| Gray.CodePow2 | src/gray_code.rs:26 | the code of `2^(k+1)` is `2^(k+1) + 2^k` |
| Gray.Examples | src/gray_code.rs:16-27 | the source's table, 2^31 included |

## Left out

- src/main.rs is not part of this model: it only calls the other modules and prints.
- src/curve.rs, src/inverse_curve.rs and src/powerset.rs are not part of this model. The curves work on floating point, and the powerset wraps a library whose source is not shown.
- src/negation_normal_form.rs, src/conjunctive_normal_form.rs and src/sat.rs are not part of this model: they are stubs with no logic.
- `print_truth_table`, `print_header` and the debug `println!` in the parser (src/truth_table.rs:48, 74-91) only print, so they are left out.
- The test at src/truth_table.rs:184-199 expects operands `1` and `0` that the parser never produces. It is not stated.
- `parse_into_tree` and the `head`/`Node` tree built inside `eval_formula` (src/evaluation.rs:1-49, 142-156) never affect a result, so they are left out.
- The private copy of the tree and parser in src/truth_table.rs (lines 1-60) is modelled once, by `Formula`. The parser differs only by its debug print. The copied `Operator` type has no `and`, `or` or `to_string` and derives neither `Hash` nor `Eq`; its parser uses none of these.
- Unicode `is_alphabetic` and `to_uppercase` are restricted to the ASCII letters.
- Panics (`expect`, `unwrap`, `panic!`) become `Err` values with a reason. Nothing models the unwinding itself.
- The `Vec<i32>` returned by `eval_set` comes out in hash-set iteration order. It is modelled as the `set<int>` it was collected from, so its order is not modelled.
- `Vec::sort` is library code. It is modelled by a verified insertion sort that specifies the result (sorted, and a permutation), not the library's algorithm.
- The per-call clones of the binding map in `solve` are left out: they change nothing a caller can observe.
- `usize` is fixed at 64 bits.
- Adder.Add: words are modelled by their values. `result |= sum_bit << i` is modelled as adding the bit's weight, since bit `i` of the result is still clear at that point.
- Gray.GrayCode: `u32` is modelled by its value. `>> 1` is modelled as halving and `^` by the recursive `Xor` on naturals, which is proved bitwise.
- Multiplier.Multiply: the words are `bv32`, and the `for` loop over `0..u32::BITS` becomes a `while` loop with a `bv32` counter.

## Findings

| source | as written | input that shows it | evidently intended | confidence | as-written member | corrected member |
|---|---|---|---|---|---|---|
| src/multiplier.rs:7 | each partial product `a << i` is OR-ed into the result | `multiplier(3, 3)` gives 7 | the product `a * b` modulo 2^32, with partial products added | not executed; high | Multiplier.ThreeTimesThree | Multiplier.Product |
