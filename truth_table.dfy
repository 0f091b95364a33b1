/** The variable collection of src/truth_table.rs. The module's own parser
    (`nodes_from_formula`) takes the same branches, pops and panics as
    `from_formula` in src/operator.rs, adding only a debug print; its copy
    of the tree lacks `and`, `or` and `to_string`, which that parser does
    not use. So both are `Formula.Operator` and `Formula.FromFormula` here,
    and the lemma `NodesFromFormulaExamples` states the module's tests
    against them. */
module TruthTable {
  import opened Outcomes
  import opened Formula

  /** No character occurs twice. */
  predicate Distinct(s: string)
  {
    forall i, j :: 0 <= i < j < |s| ==> s[i] != s[j]
  }

  /** `operands_in_formula`: the alphabetic characters of `s`, each kept
      once, at its first occurrence, as written (not upper-cased). A left
      fold: the last character is appended unless already collected. */
  function FirstOccurrences(s: string): (r: string)
    ensures forall c :: c in r ==> IsAlphabetic(c) && c in s
    ensures forall c :: c in s && IsAlphabetic(c) ==> c in r
    ensures Distinct(r)
    ensures |r| <= |s|
  {
    if s == [] then []
    else
      var acc := FirstOccurrences(s[..|s| - 1]);
      var c := s[|s| - 1];
      assert s == s[..|s| - 1] + [c];
      if IsAlphabetic(c) && c !in acc then acc + [c] else acc
  }

  /** The source's fold, with the accumulator vector as a sequence. */
  method OperandsInFormula(formula: string) returns (operands: string)
    ensures operands == FirstOccurrences(formula)
  {
    operands := [];
    for i := 0 to |formula|
      invariant operands == FirstOccurrences(formula[..i])
    {
      var c := formula[i];
      assert formula[..i + 1][..i] == formula[..i];
      if IsAlphabetic(c) && c !in operands {
        operands := operands + [c];
      }
    }
    assert formula[..|formula|] == formula;
  }

  /** Where `c` first occurs in `s`. */
  function FirstIndex(s: string, c: char): (i: nat)
    requires c in s
    ensures i < |s| && s[i] == c && c !in s[..i]
  {
    if s[0] == c then 0
    else
      var i := 1 + FirstIndex(s[1..], c);
      assert s[..i] == [s[0]] + s[1..][..i - 1];
      i
  }

  /** The first occurrence is the only position with no earlier copy. */
  lemma FirstIndexUnique(s: string, c: char, i: nat)
    requires i < |s| && s[i] == c && c !in s[..i]
    ensures FirstIndex(s, c) == i
  {
  }

  /** The collected variables come in the order of their first occurrence
      in the formula. */
  lemma {:induction false} FirstOccurrencesOrdered(s: string)
    ensures forall i, j :: 0 <= i < j < |FirstOccurrences(s)| ==>
      FirstIndex(s, FirstOccurrences(s)[i]) < FirstIndex(s, FirstOccurrences(s)[j])
  {
    if s != [] {
      var p, c := s[..|s| - 1], s[|s| - 1];
      var acc, r := FirstOccurrences(p), FirstOccurrences(s);
      FirstOccurrencesOrdered(p);
      forall x | x in acc
        ensures FirstIndex(s, x) == FirstIndex(p, x) < |p|
      {
        var k := FirstIndex(p, x);
        assert s[..k] == p[..k];
        FirstIndexUnique(s, x, k);
      }
      if r != acc {
        assert r == acc + [c] && c !in p;
        assert s[..|p|] == p;
        FirstIndexUnique(s, c, |p|);
      }
      forall i, j | 0 <= i < j < |r|
        ensures FirstIndex(s, r[i]) < FirstIndex(s, r[j])
      {
        assert r[i] in acc;
        if j < |acc| {
          assert r[j] in acc;
        }
      }
    }
  }

  // ---------------------------------------------------------------------
  // The module's tests.

  /** One more character: the fold's step, with `s == p + [c]` and
      `before` the variables of `p`. */
  lemma FirstOccurrencesSnoc(p: string, c: char, s: string, before: string)
    requires s == p + [c] && before == FirstOccurrences(p)
    ensures FirstOccurrences(s) ==
      if IsAlphabetic(c) && c !in before then before + [c] else before
  {
    assert s[..|p|] == p;
  }

  lemma OperandsAB()
    ensures FirstOccurrences("AB") == "AB"
  {
    FirstOccurrencesSnoc("", 'A', "A", "");
    FirstOccurrencesSnoc("A", 'B', "AB", "A");
  }

  lemma OperandsExample()
    ensures FirstOccurrences("AB&") == "AB"
  {
    OperandsAB();
    FirstOccurrencesSnoc("AB", '&', "AB&", "AB");
  }

  /** A repeated variable is collected once. */
  lemma OperandsNoDoubles()
    ensures FirstOccurrences("ABB&") == "AB"
  {
    OperandsAB();
    FirstOccurrencesSnoc("AB", 'B', "ABB", "AB");
    FirstOccurrencesSnoc("ABB", '&', "ABB&", "AB");
  }

  lemma OperandsABCD()
    ensures FirstOccurrences("ABCD") == "ABCD"
  {
    OperandsAB();
    FirstOccurrencesSnoc("AB", 'C', "ABC", "AB");
    FirstOccurrencesSnoc("ABC", 'D', "ABCD", "ABC");
  }

  lemma OperandsOperators()
    ensures FirstOccurrences("ABCD||") == "ABCD"
  {
    OperandsABCD();
    FirstOccurrencesSnoc("ABCD", '|', "ABCD|", "ABCD");
    FirstOccurrencesSnoc("ABCD|", '|', "ABCD||", "ABCD");
  }

  lemma OperandsEquivalence()
    ensures FirstOccurrences("ABCD||=") == "ABCD"
  {
    OperandsOperators();
    FirstOccurrencesSnoc("ABCD||", '=', "ABCD||=", "ABCD");
  }

  /** The source's complicated formula: five distinct variables. */
  lemma OperandsComplicated()
    ensures FirstOccurrences("ABCD||=E") == "ABCDE"
  {
    OperandsEquivalence();
    FirstOccurrencesSnoc("ABCD||=", 'E', "ABCD||=E", "ABCD");
  }

  lemma OperandsLowerUpper()
    ensures FirstOccurrences("aA") == "aA"
  {
    FirstOccurrencesSnoc("", 'a', "a", "");
    FirstOccurrencesSnoc("a", 'A', "aA", "a");
  }

  /** Variables are collected as written, while the parser upper-cases
      them: `"aA&"` names two variables here but one in the tree. */
  lemma OperandsKeepCase()
    ensures FirstOccurrences("aA&") == "aA"
  {
    OperandsLowerUpper();
    FirstOccurrencesSnoc("aA", '&', "aA&", "aA");
  }

  lemma ParseUpperCases()
    ensures Parse("aA&") == Ok(Some(And(Operand('A'), Operand('A'))))
  {
    assert Run([], "aA&") == Run([Operand('A')], "A&");
  }

  /** `nodes_from_formula`'s tests, stated of the shared parser. */
  lemma NodesFromFormulaExamples()
    ensures Parse("") == Ok(None)
    ensures Parse("A") == Ok(Some(Operand('A')))
    ensures Parse("AB&") == Ok(Some(And(Operand('A'), Operand('B'))))
    ensures Parse("A!") == Ok(Some(Not(Operand('A'))))
    ensures Parse("ABB&") == Err(TooManyOperands)
    ensures Parse("AB&C|") == Ok(Some(Or(And(Operand('A'), Operand('B')), Operand('C'))))
    ensures Parse("ABC|&") == Ok(Some(And(Operand('A'), Or(Operand('B'), Operand('C')))))
  {
    ParseExamplesSimple();
    ParseTooManyOperands();
    ParseLeftNested();
    ParseRightNested();
  }
}
