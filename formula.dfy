/** The propositional formula tree, its postfix parser and its postfix
    serialiser (src/operator.rs). A formula is written in reverse-Polish
    notation: a letter is a variable, `!` negates the node on top of the
    stack, and `& | ^ > =` combine the two topmost nodes. */
module Formula {
  import opened Outcomes

  datatype Operator =
    | And(left: Operator, right: Operator)
    | Or(left: Operator, right: Operator)
    | Xor(left: Operator, right: Operator)
    | Implies(left: Operator, right: Operator)
    | Equals(left: Operator, right: Operator)
    | Not(child: Operator)
    | Operand(symbol: char)

  // ---------------------------------------------------------------------
  // Characters. `char::is_alphabetic` and `char::to_uppercase` are Unicode
  // aware in the source; the model restricts letters to ASCII.

  predicate IsLower(c: char) { 'a' <= c <= 'z' }

  predicate IsUpper(c: char) { 'A' <= c <= 'Z' }

  predicate IsAlphabetic(c: char) { IsLower(c) || IsUpper(c) }

  /** The characters `with_two` accepts. */
  predicate IsBinaryToken(c: char) { c == '&' || c == '|' || c == '^' || c == '>' || c == '=' }

  /** Every character the parser accepts. */
  predicate IsToken(c: char) { IsAlphabetic(c) || c == '!' || IsBinaryToken(c) }

  function ToUpper(c: char): (u: char)
    ensures IsAlphabetic(c) <==> IsUpper(u)
    ensures IsUpper(c) ==> u == c
    ensures !IsLower(c) ==> u == c
    ensures IsLower(c) ==> u as int - 'A' as int == c as int - 'a' as int
  {
    if IsLower(c) then (c as int - 32) as char else c
  }

  /** The string `s` with every letter upper-cased. */
  function UpperCase(s: string): (u: string)
    ensures |u| == |s|
    ensures forall i :: 0 <= i < |s| ==> u[i] == ToUpper(s[i])
  {
    seq(|s|, i requires 0 <= i < |s| => ToUpper(s[i]))
  }

  // ---------------------------------------------------------------------
  // Constructors (`operand`, `with_two`, `and`, `or`, `not`).

  /** The character that stands for the root of `op` in postfix text. */
  function Symbol(op: Operator): char
  {
    match op
    case And(_, _) => '&'
    case Or(_, _) => '|'
    case Xor(_, _) => '^'
    case Implies(_, _) => '>'
    case Equals(_, _) => '='
    case Not(_) => '!'
    case Operand(c) => c
  }

  predicate IsBinary(op: Operator)
  {
    op.And? || op.Or? || op.Xor? || op.Implies? || op.Equals?
  }

  /** `Operator::operand`: a variable, upper-cased. */
  function NewOperand(c: char): (r: Operator)
    ensures r.Operand?
    ensures IsAlphabetic(c) <==> IsUpper(r.symbol)
    ensures r.symbol == c || IsLower(c)
    ensures IsLower(c) ==> r.symbol as int - 'A' as int == c as int - 'a' as int
  {
    Operand(ToUpper(c))
  }

  /** `Operator::with_two`: the binary node a token stands for, or the
      panic for any other character. */
  function WithTwo(token: char, a: Operator, b: Operator): (r: Result<Operator>)
    ensures r.Ok? <==> IsBinaryToken(token)
    ensures r.Ok? ==> IsBinary(r.value) && r.value.left == a && r.value.right == b
    ensures r.Ok? ==> Symbol(r.value) == token
    ensures r.Err? ==> r.error == InvalidOperatorToken
  {
    match token
    case '&' => Ok(And(a, b))
    case '|' => Ok(Or(a, b))
    case '^' => Ok(Xor(a, b))
    case '>' => Ok(Implies(a, b))
    case '=' => Ok(Equals(a, b))
    case _ => Err(InvalidOperatorToken)
  }

  /** `Operator::and`, defined in the source as `with_two('&', ..)`. */
  function NewAnd(a: Operator, b: Operator): (r: Operator)
    ensures WithTwo('&', a, b) == Ok(r)
  {
    And(a, b)
  }

  /** `Operator::or`, defined in the source as `with_two('|', ..)`. */
  function NewOr(a: Operator, b: Operator): (r: Operator)
    ensures WithTwo('|', a, b) == Ok(r)
  {
    Or(a, b)
  }

  /** `Operator::not`. */
  function NewNot(a: Operator): (r: Operator)
    ensures r.Not? && r.child == a && Symbol(r) == '!'
  {
    Not(a)
  }

  // ---------------------------------------------------------------------
  // The serialiser (`to_string`).

  function Size(op: Operator): nat
  {
    match op
    case Operand(_) => 1
    case Not(c) => 1 + Size(c)
    case And(a, b) => 1 + Size(a) + Size(b)
    case Or(a, b) => 1 + Size(a) + Size(b)
    case Xor(a, b) => 1 + Size(a) + Size(b)
    case Implies(a, b) => 1 + Size(a) + Size(b)
    case Equals(a, b) => 1 + Size(a) + Size(b)
  }

  /** Postfix text: both subtrees, left first, then the operator. Every node
      contributes one character and the root's comes last. */
  function ToString(op: Operator): (s: string)
    ensures |s| == Size(op)
    ensures s[|s| - 1] == Symbol(op)
  {
    match op
    case And(a, b) => ToString(a) + ToString(b) + "&"
    case Or(a, b) => ToString(a) + ToString(b) + "|"
    case Xor(a, b) => ToString(a) + ToString(b) + "^"
    case Implies(a, b) => ToString(a) + ToString(b) + ">"
    case Equals(a, b) => ToString(a) + ToString(b) + "="
    case Not(c) => ToString(c) + "!"
    case Operand(c) => [c]
  }

  /** Every variable of the tree is an upper-case letter, as every tree the
      parser builds is. */
  predicate UpperOperands(op: Operator)
  {
    match op
    case Operand(c) => IsUpper(c)
    case Not(c) => UpperOperands(c)
    case And(a, b) => UpperOperands(a) && UpperOperands(b)
    case Or(a, b) => UpperOperands(a) && UpperOperands(b)
    case Xor(a, b) => UpperOperands(a) && UpperOperands(b)
    case Implies(a, b) => UpperOperands(a) && UpperOperands(b)
    case Equals(a, b) => UpperOperands(a) && UpperOperands(b)
  }

  // ---------------------------------------------------------------------
  // The parser (`from_formula`). The stack is a sequence whose last element
  // is the top: `Vec::push` appends, `Vec::pop` removes the last element.

  /** How many nodes a token pops. */
  function Arity(token: char): nat
  {
    if IsAlphabetic(token) then 0 else if token == '!' then 1 else 2
  }

  /** What one token does to the stack: the first pop is the right child,
      the second the left. Underflow is reported before the token itself is
      looked at, as the source pops before calling `with_two`. */
  function Step(stack: seq<Operator>, token: char): (r: Result<seq<Operator>>)
    ensures r == Err(StackUnderflow) <==> |stack| < Arity(token)
    ensures r == Err(InvalidOperatorToken) <==> |stack| >= Arity(token) && !IsToken(token)
    ensures r.Ok? <==> |stack| >= Arity(token) && IsToken(token)
    ensures r.Ok? ==> |r.value| == |stack| - Arity(token) + 1
    ensures r.Ok? ==> r.value[..|r.value| - 1] == stack[..|stack| - Arity(token)]
  {
    if IsAlphabetic(token) then
      Ok(stack + [NewOperand(token)])
    else if token == '!' then
      if |stack| == 0 then Err(StackUnderflow)
      else Ok(stack[..|stack| - 1] + [NewNot(stack[|stack| - 1])])
    else if |stack| < 2 then Err(StackUnderflow)
    else
      match WithTwo(token, stack[|stack| - 2], stack[|stack| - 1])
      case Ok(node) => Ok(stack[..|stack| - 2] + [node])
      case Err(e) => Err(e)
  }

  /** The stack after the whole of `s`, or the first failure. */
  function Run(stack: seq<Operator>, s: string): (r: Result<seq<Operator>>)
    ensures r.Ok? ==> forall i :: 0 <= i < |s| ==> IsToken(s[i])
    ensures r.Ok? && (stack != [] || s != []) ==> r.value != []
    decreases s
  {
    if s == [] then Ok(stack)
    else
      match Step(stack, s[0])
      case Ok(next) => Run(next, s[1..])
      case Err(e) => Err(e)
  }

  /** `from_formula` as a function: `Ok(None)` for the empty formula, the
      single remaining node otherwise, and the panics as errors. */
  function Parse(s: string): (r: Result<Option<Operator>>)
    ensures r == Ok(None) <==> s == []
    ensures r.Ok? ==> forall i :: 0 <= i < |s| ==> IsToken(s[i])
  {
    match Run([], s)
    case Err(e) => Err(e)
    case Ok(stack) =>
      if |stack| > 1 then Err(TooManyOperands)
      else if |stack| == 0 then Ok(None)
      else Ok(Some(stack[0]))
  }

  /** The source's stack loop. */
  method FromFormula(formula: string) returns (r: Result<Option<Operator>>)
    ensures r == Parse(formula)
  {
    var stack: seq<Operator> := [];
    var i := 0;
    while i < |formula|
      invariant 0 <= i <= |formula|
      invariant Run(stack, formula[i..]) == Run([], formula)
    {
      var token := formula[i];
      assert formula[i..][0] == token && formula[i..][1..] == formula[i + 1..];
      if IsAlphabetic(token) {
        stack := stack + [NewOperand(token)];
      } else if token == '!' {
        if |stack| == 0 {
          return Err(StackUnderflow);
        }
        var operand := stack[|stack| - 1];
        stack := stack[..|stack| - 1];
        stack := stack + [NewNot(operand)];
      } else {
        ghost var before := stack;
        if |stack| == 0 {
          return Err(StackUnderflow);
        }
        var right := stack[|stack| - 1];
        stack := stack[..|stack| - 1];
        if |stack| == 0 {
          return Err(StackUnderflow);
        }
        var left := stack[|stack| - 1];
        stack := stack[..|stack| - 1];
        assert left == before[|before| - 2] && right == before[|before| - 1];
        assert stack == before[..|before| - 2];
        var node := WithTwo(token, left, right);
        if node.Err? {
          return Err(node.error);
        }
        stack := stack + [node.value];
      }
      i := i + 1;
    }
    assert formula[i..] == [];
    if |stack| > 1 {
      return Err(TooManyOperands);
    }
    if |stack| == 0 {
      return Ok(None);
    }
    return Ok(Some(stack[0]));
  }

  // ---------------------------------------------------------------------
  // Round trip between the parser and the serialiser.

  /** Parsing the text of a tree pushes exactly that tree. */
  lemma {:induction false} RunToString(stack: seq<Operator>, op: Operator, rest: string)
    requires UpperOperands(op)
    ensures Run(stack, ToString(op) + rest) == Run(stack + [op], rest)
    decreases op, 1
  {
    match op
    case Operand(c) =>
      assert ([c] + rest)[1..] == rest;
    case Not(a) =>
      RunToString(stack, a, "!" + rest);
      assert ToString(op) + rest == ToString(a) + ("!" + rest);
      assert ("!" + rest)[1..] == rest;
      assert (stack + [a])[..|stack|] == stack;
    case And(a, b) => RunBinary(stack, op, a, b, rest);
    case Or(a, b) => RunBinary(stack, op, a, b, rest);
    case Xor(a, b) => RunBinary(stack, op, a, b, rest);
    case Implies(a, b) => RunBinary(stack, op, a, b, rest);
    case Equals(a, b) => RunBinary(stack, op, a, b, rest);
  }

  lemma {:induction false} RunBinary(stack: seq<Operator>, op: Operator, a: Operator, b: Operator, rest: string)
    requires IsBinary(op) && op.left == a && op.right == b
    requires UpperOperands(a) && UpperOperands(b)
    ensures Run(stack, ToString(op) + rest) == Run(stack + [op], rest)
    decreases op, 0
  {
    var tail := [Symbol(op)] + rest;
    assert ToString(op) + rest == ToString(a) + (ToString(b) + tail);
    RunToString(stack, a, ToString(b) + tail);
    RunToString(stack + [a], b, tail);
    StepBinary(stack, op);
    assert tail[0] == Symbol(op) && tail[1..] == rest;
  }

  /** A binary token combines the two topmost nodes into its node. */
  lemma StepBinary(stack: seq<Operator>, op: Operator)
    requires IsBinary(op)
    ensures Step(stack + [op.left] + [op.right], Symbol(op)) == Ok(stack + [op])
  {
    var st := stack + [op.left] + [op.right];
    assert st[..|st| - 2] == stack;
    assert WithTwo(Symbol(op), op.left, op.right) == Ok(op);
  }

  /** Serialising then parsing gives the tree back. */
  lemma ParseToString(op: Operator)
    requires UpperOperands(op)
    ensures Parse(ToString(op)) == Ok(Some(op))
  {
    var s := ToString(op);
    RunToString([], op, []);
    assert s + [] == s;
    RunDone([] + [op]);
    assert [] + [op] == [op];
  }

  lemma RunDone(stack: seq<Operator>)
    ensures Run(stack, []) == Ok(stack)
  {
  }

  /** The text of a stack: its nodes' texts, bottom first. */
  function Flatten(stack: seq<Operator>): string
  {
    if stack == [] then [] else Flatten(stack[..|stack| - 1]) + ToString(stack[|stack| - 1])
  }

  predicate AllUpper(stack: seq<Operator>)
  {
    forall i :: 0 <= i < |stack| ==> UpperOperands(stack[i])
  }

  lemma StepFlatten(stack: seq<Operator>, token: char)
    requires AllUpper(stack) && Step(stack, token).Ok?
    ensures AllUpper(Step(stack, token).value)
    ensures Flatten(Step(stack, token).value) == Flatten(stack) + [ToUpper(token)]
  {
    var n, next := |stack|, Step(stack, token).value;
    if IsAlphabetic(token) {
      FlattenPush(stack, NewOperand(token), next);
    } else if token == '!' {
      var pre, top := stack[..n - 1], stack[n - 1];
      FlattenPush(pre, top, stack);
      FlattenPush(pre, NewNot(top), next);
    } else {
      var pre, left, right := stack[..n - 2], stack[n - 2], stack[n - 1];
      var node := WithTwo(token, left, right).value;
      var mid := stack[..n - 1];
      FlattenPush(pre, left, mid);
      FlattenPush(mid, right, stack);
      FlattenPush(pre, node, next);
      BinaryText(node);
      Regroup(Flatten(pre), Flatten(mid), Flatten(stack), ToString(left), ToString(right),
        ToString(left) + ToString(right));
    }
  }

  /** Pushing a node appends its text. */
  lemma FlattenPush(pre: seq<Operator>, node: Operator, next: seq<Operator>)
    requires next == pre + [node]
    ensures Flatten(next) == Flatten(pre) + ToString(node)
    ensures AllUpper(next) <==> AllUpper(pre) && UpperOperands(node)
  {
    assert next[..|pre|] == pre;
    assert next[|pre|] == node;
  }

  lemma BinaryText(op: Operator)
    requires IsBinary(op)
    ensures ToString(op) == ToString(op.left) + ToString(op.right) + [Symbol(op)]
  {
  }

  /** Whatever the parser consumes, the text of its stack grows by that
      text, upper-cased. */
  lemma {:induction false} RunFlatten(stack: seq<Operator>, s: string)
    requires AllUpper(stack) && Run(stack, s).Ok?
    ensures AllUpper(Run(stack, s).value)
    ensures Flatten(Run(stack, s).value) == Flatten(stack) + UpperCase(s)
    decreases s
  {
    if s != [] {
      var c, tail := s[0], s[1..];
      var next := Step(stack, c).value;
      StepFlatten(stack, c);
      RunFlatten(next, tail);
      RunCons(stack, s, next);
      var u := UpperCase(s);
      assert u == [ToUpper(c)] + UpperCase(tail);
      Regroup(Flatten(stack), Flatten(next), Flatten(Run(next, tail).value),
        [ToUpper(c)], UpperCase(tail), u);
    }
  }

  /** A successful first step hands the rest of the text to the next stack. */
  lemma RunCons(stack: seq<Operator>, s: string, next: seq<Operator>)
    requires s != [] && Step(stack, s[0]) == Ok(next)
    ensures Run(stack, s) == Run(next, s[1..])
  {
  }

  lemma Regroup(f0: string, f1: string, f2: string, x: string, y: string, u: string)
    requires f1 == f0 + x && f2 == f1 + y && u == x + y
    ensures f2 == f0 + u
  {
  }

  /** A parsed formula serialises to its own text, upper-cased; its variables
      are all upper-case. */
  lemma ToStringParse(s: string)
    requires Parse(s).Ok? && Parse(s).value.Some?
    ensures UpperOperands(Parse(s).value.value)
    ensures ToString(Parse(s).value.value) == UpperCase(s)
  {
    RunFlatten([], s);
    var stack := Run([], s).value;
    assert stack == [stack[0]];
    assert stack[..0] == [];
    assert Flatten(stack) == Flatten([]) + ToString(stack[0]);
    assert Flatten([]) + UpperCase(s) == UpperCase(s);
  }

  /** For text without lower-case letters the round trip is exact. */
  lemma ToStringParseUpper(s: string)
    requires forall i :: 0 <= i < |s| ==> !IsLower(s[i])
    requires Parse(s).Ok? && Parse(s).value.Some?
    ensures ToString(Parse(s).value.value) == s
  {
    ToStringParse(s);
    assert UpperCase(s) == s;
  }

  // ---------------------------------------------------------------------
  // The source's tests.

  lemma ParseExamplesSimple()
    ensures Parse("") == Ok(None)
    ensures Parse("A") == Ok(Some(Operand('A')))
    ensures Parse("AB&") == Ok(Some(And(Operand('A'), Operand('B'))))
    ensures Parse("A!") == Ok(Some(Not(Operand('A'))))
    ensures Parse("A!!") == Ok(Some(Not(Not(Operand('A')))))
  {
    ParseToString(Operand('A'));
    ParseToString(And(Operand('A'), Operand('B')));
    ParseToString(Not(Operand('A')));
    ParseToString(Not(Not(Operand('A'))));
  }

  /** A lower-case variable is upper-cased. */
  lemma ParseLowerCase()
    ensures Parse("a") == Ok(Some(Operand('A')))
  {
    assert Run([], "a") == Ok([Operand('A')]);
  }

  /** The first pop is the right child, the second the left. */
  lemma ParseLeftNested()
    ensures Parse("AB&C|") == Ok(Some(Or(And(Operand('A'), Operand('B')), Operand('C'))))
  {
    var ab := And(Operand('A'), Operand('B'));
    assert ToString(ab) == "AB&";
    assert ToString(Or(ab, Operand('C'))) == "AB&C|";
    ParseToString(Or(ab, Operand('C')));
  }

  lemma ParseRightNested()
    ensures Parse("ABC|&") == Ok(Some(And(Operand('A'), Or(Operand('B'), Operand('C')))))
  {
    var bc := Or(Operand('B'), Operand('C'));
    assert ToString(bc) == "BC|";
    assert ToString(And(Operand('A'), bc)) == "ABC|&";
    ParseToString(And(Operand('A'), bc));
  }

  lemma ParseDeeplyNested()
    ensures Parse("ABCD||=") == Ok(Some(Equals(Operand('A'), Or(Operand('B'), Or(Operand('C'), Operand('D'))))))
  {
    var cd := Or(Operand('C'), Operand('D'));
    var bcd := Or(Operand('B'), cd);
    assert ToString(cd) == "CD|";
    assert ToString(bcd) == "BCD||";
    assert ToString(Equals(Operand('A'), bcd)) == "ABCD||=";
    ParseToString(Equals(Operand('A'), bcd));
  }

  /** Two nodes are left on the stack. */
  /** Two complete formulas written one after the other leave two nodes on
      the stack: `from_formula` rejects them, whatever they are. */
  lemma ParseTwoTrees(a: Operator, b: Operator)
    requires UpperOperands(a) && UpperOperands(b)
    ensures Parse(ToString(a) + ToString(b)) == Err(TooManyOperands)
  {
    RunToString([], a, ToString(b));
    RunToString([] + [a], b, []);
    assert ToString(b) + [] == ToString(b);
    RunDone([] + [a] + [b]);
  }

  lemma ParseTooManyOperands()
    ensures Parse("ABB&") == Err(TooManyOperands)
  {
    var a, bb := Operand('A'), And(Operand('B'), Operand('B'));
    assert "ABB&" == ToString(a) + ToString(bb);
    ParseTwoTrees(a, bb);
  }

  lemma ParseUnderflow()
    ensures Parse("&") == Err(StackUnderflow)
    ensures Parse("A&") == Err(StackUnderflow)
    ensures Parse("!") == Err(StackUnderflow)
  {
    assert "A&"[1..] == "&";
  }

  /** `+` is not an operator: it fails once two operands are available. */
  lemma ParseInvalidToken()
    ensures Parse("AB+") == Err(InvalidOperatorToken)
  {
    ParseBadToken(Operand('A'), Operand('B'), '+', "AB+");
  }

  /** Two trees followed by a character that is no token. */
  lemma ParseBadToken(a: Operator, b: Operator, t: char, s: string)
    requires UpperOperands(a) && UpperOperands(b) && !IsToken(t)
    requires s == ToString(a) + ToString(b) + [t]
    ensures Parse(s) == Err(InvalidOperatorToken)
  {
    var st := [] + [a];
    assert s == ToString(a) + (ToString(b) + [t]);
    RunToString([], a, ToString(b) + [t]);
    RunToString(st, b, [t]);
    RunFails(st + [b], [t], InvalidOperatorToken);
  }

  /** A failing first step is the failure of the whole run. */
  lemma RunFails(stack: seq<Operator>, s: string, e: Error)
    requires s != [] && Step(stack, s[0]) == Err(e)
    ensures Run(stack, s) == Err(e)
  {
  }
}
