/** The constant evaluator of src/evaluation.rs: a postfix formula over the
    constants `1` and `0`, run on a stack of values. The tree the source
    builds alongside (`head`) never reaches the result and is not part of
    this model. */
module Evaluation {
  import opened Outcomes

  /** The module's own token type: two constants and six operators. */
  datatype Operator = True | False | Not | And | Or | Xor | Implies | Equals

  /** The character a token is read from. */
  function Char(op: Operator): char
  {
    match op
    case True => '1'
    case False => '0'
    case Not => '!'
    case And => '&'
    case Or => '|'
    case Xor => '^'
    case Implies => '>'
    case Equals => '='
  }

  /** `Operator::from_char`: the token a character stands for, or the
      panic for any other character. */
  function FromChar(c: char): (r: Result<Operator>)
    ensures r.Ok? <==> c in "10!&|^>="
    ensures r.Ok? ==> Char(r.value) == c
    ensures r.Err? ==> r.error == InvalidOperatorToken
  {
    match c
    case '1' => Ok(True)
    case '0' => Ok(False)
    case '!' => Ok(Not)
    case '&' => Ok(And)
    case '|' => Ok(Or)
    case '^' => Ok(Xor)
    case '>' => Ok(Implies)
    case '=' => Ok(Equals)
    case _ => Err(InvalidOperatorToken)
  }

  /** `Operator::is_operand`. */
  predicate IsOperand(op: Operator): (b: bool)
    ensures b <==> Char(op) in "10"
  {
    op == True || op == False
  }

  /** Every token `Char` names reads back as itself; only `1` and `0` read
      as operands. */
  lemma FromCharChar(op: Operator)
    ensures FromChar(Char(op)) == Ok(op)
    ensures IsOperand(op) <==> Char(op) in "10"
  {
  }

  /** The operators `evaluate` accepts. */
  predicate IsBinary(op: Operator)
  {
    op == And || op == Or || op == Xor || op == Implies || op == Equals
  }

  function FromBool(b: bool): Operator
  {
    if b then True else False
  }

  /** `evaluate`: `a` is the value popped first (the right operand), `b`
      the one beneath it (the left operand). */
  function Evaluate(a: Operator, b: Operator, op: Operator): (r: Result<Operator>)
    ensures r.Ok? <==> IsBinary(op)
    ensures r.Ok? ==> IsOperand(r.value)
    ensures r.Err? ==> r.error == UnsupportedOperator
  {
    match op
    case And => Ok(if a == True && b == True then True else False)
    case Or => Ok(if a == True || b == True then True else False)
    case Xor => Ok(if a != b then True else False)
    case Implies => Ok(if a == True && b == False then False else True)
    case Equals => Ok(if a == b then True else False)
    case _ => Err(UnsupportedOperator)
  }

  /** On the two constants, `evaluate` is the truth table of each
      connective, except that `>` reads right-to-left: it is false only
      when the right operand holds and the left one does not. */
  lemma EvaluateTruthTable(right: bool, left: bool)
    ensures Evaluate(FromBool(right), FromBool(left), And) == Ok(FromBool(left && right))
    ensures Evaluate(FromBool(right), FromBool(left), Or) == Ok(FromBool(left || right))
    ensures Evaluate(FromBool(right), FromBool(left), Xor) == Ok(FromBool(left != right))
    ensures Evaluate(FromBool(right), FromBool(left), Implies) == Ok(FromBool(right ==> left))
    ensures Evaluate(FromBool(right), FromBool(left), Equals) == Ok(FromBool(left == right))
    ensures Evaluate(FromBool(right), FromBool(left), Not) == Err(UnsupportedOperator)
  {
  }

  // ---------------------------------------------------------------------
  // The stack machine (`eval_formula`). The top of the stack is the last
  // element.

  predicate AllOperands(stack: seq<Operator>)
  {
    forall i :: 0 <= i < |stack| ==> IsOperand(stack[i])
  }

  /** One character: a constant is pushed; an operator pops the right
      operand, then the left one, and pushes their value. The character
      is read before anything is popped, and both pops come before
      `evaluate` rejects `!`. */
  function EvalStep(stack: seq<Operator>, c: char): (r: Result<seq<Operator>>)
    ensures r.Ok? <==> c in "10&|^>=" && (c in "10" || |stack| >= 2)
    ensures r == Err(StackUnderflow) <==> c in "!&|^>=" && |stack| < 2
    ensures r == Err(UnsupportedOperator) <==> c == '!' && |stack| >= 2
    ensures r.Ok? && c in "10" ==> r.value == stack + [FromBool(c == '1')]
    ensures r.Ok? && c !in "10" ==> |r.value| == |stack| - 1 && r.value[..|stack| - 2] == stack[..|stack| - 2]
    ensures r.Ok? && AllOperands(stack) ==> AllOperands(r.value)
  {
    match FromChar(c)
    case Err(e) => Err(e)
    case Ok(op) =>
      if IsOperand(op) then Ok(stack + [op])
      else if |stack| < 2 then Err(StackUnderflow)
      else
        match Evaluate(stack[|stack| - 1], stack[|stack| - 2], op)
        case Ok(v) => Ok(stack[..|stack| - 2] + [v])
        case Err(e) => Err(e)
  }

  /** The stack after the whole of `s`, or the first failure. A run that
      succeeds saw no `!`. */
  function EvalRun(stack: seq<Operator>, s: string): (r: Result<seq<Operator>>)
    ensures r.Ok? ==> forall i :: 0 <= i < |s| ==> s[i] in "10&|^>="
    ensures r.Ok? && AllOperands(stack) ==> AllOperands(r.value)
    decreases s
  {
    if s == [] then Ok(stack)
    else
      match EvalStep(stack, s[0])
      case Ok(next) => EvalRun(next, s[1..])
      case Err(e) => Err(e)
  }

  /** `eval_formula`: `true` for the empty formula; otherwise whether the
      value on top of the stack is `1`. Values beneath it are ignored. */
  function EvalFormulaOf(s: string): (r: Result<bool>)
    ensures s == [] ==> r == Ok(true)
    ensures r.Ok? ==> '!' !in s
  {
    if s == [] then Ok(true)
    else
      match EvalRun([], s)
      case Err(e) => Err(e)
      case Ok(stack) =>
        if stack == [] then Err(StackUnderflow) else Ok(stack[|stack| - 1] == True)
  }

  /** The source's loop over the characters. */
  method EvalFormula(formula: string) returns (r: Result<bool>)
    ensures r == EvalFormulaOf(formula)
  {
    if formula == [] {
      return Ok(true);
    }
    var operands: seq<Operator> := [];
    var i := 0;
    while i < |formula|
      invariant 0 <= i <= |formula|
      invariant EvalRun(operands, formula[i..]) == EvalRun([], formula)
    {
      var c := formula[i];
      assert formula[i..][0] == c && formula[i..][1..] == formula[i + 1..];
      var operator := FromChar(c);
      if operator.Err? {
        return Err(operator.error);
      }
      if IsOperand(operator.value) {
        operands := operands + [operator.value];
      } else {
        ghost var before := operands;
        if |operands| == 0 {
          return Err(StackUnderflow);
        }
        var a := operands[|operands| - 1];
        operands := operands[..|operands| - 1];
        if |operands| == 0 {
          return Err(StackUnderflow);
        }
        var b := operands[|operands| - 1];
        operands := operands[..|operands| - 1];
        assert a == before[|before| - 1] && b == before[|before| - 2];
        assert operands == before[..|before| - 2];
        var result := Evaluate(a, b, operator.value);
        if result.Err? {
          return Err(result.error);
        }
        operands := operands + [result.value];
      }
      i := i + 1;
    }
    assert formula[i..] == [];
    if |operands| == 0 {
      return Err(StackUnderflow);
    }
    return Ok(operands[|operands| - 1] == True);
  }

  // ---------------------------------------------------------------------
  // A tree of constants as the reference.

  datatype Expr = Const(value: bool) | Apply(op: Operator, left: Expr, right: Expr)

  /** Every inner node is one of the connectives `evaluate` accepts. */
  predicate WellFormed(e: Expr)
  {
    match e
    case Const(_) => true
    case Apply(op, l, r) => IsBinary(op) && WellFormed(l) && WellFormed(r)
  }

  /** Postfix text: both operands, left first, then the connective. */
  function Postfix(e: Expr): string
  {
    match e
    case Const(b) => if b then "1" else "0"
    case Apply(op, l, r) => Postfix(l) + Postfix(r) + [Char(op)]
  }

  /** The value of a tree, with `>` read as the source reads it: the right
      operand implies the left one. */
  predicate Value(e: Expr)
  {
    match e
    case Const(b) => b
    case Apply(op, l, r) =>
      match op
      case And => Value(l) && Value(r)
      case Or => Value(l) || Value(r)
      case Xor => Value(l) != Value(r)
      case Implies => Value(r) ==> Value(l)
      case _ => Value(l) == Value(r)
  }

  /** A connective combines the two topmost values into the tree's value. */
  lemma EvalStepApply(stack: seq<Operator>, e: Expr)
    requires e.Apply? && IsBinary(e.op)
    ensures EvalStep(stack + [FromBool(Value(e.left))] + [FromBool(Value(e.right))], Char(e.op))
      == Ok(stack + [FromBool(Value(e))])
  {
    var st := stack + [FromBool(Value(e.left))] + [FromBool(Value(e.right))];
    assert st[..|st| - 2] == stack;
    FromCharChar(e.op);
    EvaluateTruthTable(Value(e.right), Value(e.left));
  }

  /** Running the text of a tree pushes the tree's value. */
  lemma {:induction false} EvalRunPostfix(stack: seq<Operator>, e: Expr, rest: string)
    requires WellFormed(e)
    ensures EvalRun(stack, Postfix(e) + rest) == EvalRun(stack + [FromBool(Value(e))], rest)
    decreases e
  {
    match e
    case Const(b) =>
      assert (Postfix(e) + rest)[0] == Postfix(e)[0];
      assert (Postfix(e) + rest)[1..] == rest;
    case Apply(op, l, r) =>
      var tail := [Char(op)] + rest;
      assert Postfix(e) + rest == Postfix(l) + (Postfix(r) + tail);
      EvalRunPostfix(stack, l, Postfix(r) + tail);
      EvalRunPostfix(stack + [FromBool(Value(l))], r, tail);
      EvalStepApply(stack, e);
      assert tail[0] == Char(op) && tail[1..] == rest;
  }

  /** The stack machine computes the tree's value. */
  lemma EvalFormulaCorrect(e: Expr)
    requires WellFormed(e)
    ensures EvalFormulaOf(Postfix(e)) == Ok(Value(e))
  {
    EvalRunPostfix([], e, []);
    assert Postfix(e) + [] == Postfix(e);
    assert Postfix(e) != [] by { PostfixNonEmpty(e); }
  }

  lemma PostfixNonEmpty(e: Expr)
    ensures |Postfix(e)| >= 1
  {
  }

  /** Only the value on top counts: a complete formula left beneath it
      is ignored rather than rejected. */
  lemma LeftoverIgnored(first: Expr, second: Expr)
    requires WellFormed(first) && WellFormed(second)
    ensures EvalFormulaOf(Postfix(first) + Postfix(second)) == Ok(Value(second))
  {
    var v1, v2 := FromBool(Value(first)), FromBool(Value(second));
    EvalRunPostfix([], first, Postfix(second));
    assert [] + [v1] == [v1];
    EvalRunPostfix([v1], second, []);
    assert Postfix(second) + [] == Postfix(second);
    assert [v1] + [v2] == [v1, v2];
    assert EvalRun([], Postfix(first) + Postfix(second)) == Ok([v1, v2]);
    PostfixNonEmpty(first);
  }

  // ---------------------------------------------------------------------
  // The source's tests.

  lemma EvalExamples()
    ensures EvalFormulaOf("10&") == Ok(false)
    ensures EvalFormulaOf("10|") == Ok(true)
    ensures EvalFormulaOf("11>") == Ok(true)
    ensures EvalFormulaOf("10=") == Ok(false)
  {
    var one, zero := Const(true), Const(false);
    assert Postfix(Apply(And, one, zero)) == "10&";
    EvalFormulaCorrect(Apply(And, one, zero));
    assert Postfix(Apply(Or, one, zero)) == "10|";
    EvalFormulaCorrect(Apply(Or, one, zero));
    assert Postfix(Apply(Implies, one, one)) == "11>";
    EvalFormulaCorrect(Apply(Implies, one, one));
    assert Postfix(Apply(Equals, one, zero)) == "10=";
    EvalFormulaCorrect(Apply(Equals, one, zero));
  }

  lemma EvalNestedExamples()
    ensures EvalFormulaOf("10|1&") == Ok(true)
    ensures EvalFormulaOf("101|&") == Ok(true)
  {
    var one, zero := Const(true), Const(false);
    var e1 := Apply(And, Apply(Or, one, zero), one);
    assert Postfix(e1) == "10|1&";
    EvalFormulaCorrect(e1);
    var e2 := Apply(And, one, Apply(Or, zero, one));
    assert Postfix(e2) == "101|&";
    EvalFormulaCorrect(e2);
  }

  lemma EvalDeepExample()
    ensures EvalFormulaOf("1011||=") == Ok(true)
  {
    var one, zero := Const(true), Const(false);
    var e := Apply(Equals, one, Apply(Or, zero, Apply(Or, one, one)));
    assert Postfix(Apply(Or, one, one)) == "11|";
    assert Postfix(Apply(Or, zero, Apply(Or, one, one))) == "011||";
    assert Postfix(e) == "1011||=";
    EvalFormulaCorrect(e);
  }

  /** `>` reads right-to-left: `1 0 >` holds although 1 does not imply 0,
      and `0 1 >` does not hold although 0 implies 1. */
  lemma ImpliesReversed()
    ensures EvalFormulaOf("10>") == Ok(true)
    ensures EvalFormulaOf("01>") == Ok(false)
  {
    var one, zero := Const(true), Const(false);
    assert Postfix(Apply(Implies, one, zero)) == "10>";
    EvalFormulaCorrect(Apply(Implies, one, zero));
    assert Postfix(Apply(Implies, zero, one)) == "01>";
    EvalFormulaCorrect(Apply(Implies, zero, one));
  }

  /** `!` is read, pops two values, and is then rejected; with fewer than
      two values the pops fail first. */
  lemma NegationExamples()
    ensures EvalFormulaOf("11!") == Err(UnsupportedOperator)
    ensures EvalFormulaOf("1!") == Err(StackUnderflow)
  {
    assert EvalRun([], "11!") == EvalRun([True], "1!");
    assert EvalRun([True], "1!") == EvalRun([True, True], "!");
    assert EvalRun([], "1!") == EvalRun([True], "!");
  }

  /** Characters outside `10!&|^>=` are rejected, letters included. */
  lemma InvalidCharacter()
    ensures EvalFormulaOf("1A&") == Err(InvalidOperatorToken)
  {
    assert EvalRun([], "1A&") == EvalRun([True], "A&");
  }
}
