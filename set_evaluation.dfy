/** The set semantics of src/set_evaluation.rs: a formula read over finite
    sets of integers, one set per distinct variable, variables taken in
    sorted order. `HashSet` becomes `set<int>`; the `Vec<i32>` the entry
    point returns is the set it was collected from, as its order is the
    hash set's iteration order. */
module SetEvaluation {
  import opened Outcomes
  import opened Formula
  import TruthTable

  // ---------------------------------------------------------------------
  // `Vec::sort` on characters, by its result.

  predicate Sorted(s: string)
  {
    forall i, j :: 0 <= i < j < |s| ==> s[i] <= s[j]
  }

  predicate StrictlySorted(s: string)
  {
    forall i, j :: 0 <= i < j < |s| ==> s[i] < s[j]
  }

  /** `x` placed into the sorted `s` before the first element not below it. */
  function Insert(x: char, s: string): (r: string)
    requires Sorted(s)
    ensures Sorted(r)
    ensures multiset(r) == multiset(s) + multiset{x}
  {
    if s == [] || x <= s[0] then [x] + s
    else
      var t := Insert(x, s[1..]);
      InsertBehind(x, s, t);
      [s[0]] + t
  }

  /** Inserting behind the head: everything inserted after it is at least
      the head. */
  lemma InsertBehind(x: char, s: string, t: string)
    requires Sorted(s) && s != [] && s[0] < x
    requires Sorted(t) && multiset(t) == multiset(s[1..]) + multiset{x}
    ensures Sorted([s[0]] + t)
    ensures multiset([s[0]] + t) == multiset(s) + multiset{x}
  {
    assert s == [s[0]] + s[1..];
    forall k | 0 <= k < |t|
      ensures s[0] <= t[k]
    {
      assert t[k] in multiset(t);
      if t[k] != x {
        assert t[k] in multiset(s[1..]);
      }
    }
  }

  /** The sorted permutation of `s`. */
  function Sort(s: string): (r: string)
    ensures Sorted(r)
    ensures multiset(r) == multiset(s)
  {
    if s == [] then []
    else
      assert s == [s[0]] + s[1..];
      Insert(s[0], Sort(s[1..]))
  }

  lemma {:induction false} DistinctCount(s: string, x: char)
    requires TruthTable.Distinct(s)
    ensures multiset(s)[x] <= 1
  {
    if s != [] {
      var p := s[..|s| - 1];
      assert s == p + [s[|s| - 1]];
      DistinctCount(p, x);
      if s[|s| - 1] == x {
        assert x !in p;
      }
    }
  }

  lemma RepeatCount(s: string, i: nat, j: nat)
    requires i < j < |s| && s[i] == s[j]
    ensures multiset(s)[s[i]] >= 2
  {
    assert s == s[..j] + s[j..];
    assert s[..j][i] == s[i];
    assert s[j..][0] == s[i];
  }

  /** Sorting a duplicate-free sequence orders it strictly. */
  lemma SortDistinct(s: string)
    requires TruthTable.Distinct(s)
    ensures StrictlySorted(Sort(s))
  {
    var r := Sort(s);
    forall i, j | 0 <= i < j < |r|
      ensures r[i] < r[j]
    {
      NoRepeat(s, r, i, j);
    }
  }

  /** A sorted permutation of a duplicate-free sequence has no duplicates. */
  lemma NoRepeat(s: string, r: string, i: nat, j: nat)
    requires TruthTable.Distinct(s) && multiset(r) == multiset(s) && Sorted(r) && i < j < |r|
    ensures r[i] < r[j]
  {
    if r[i] == r[j] {
      RepeatCount(r, i, j);
      DistinctCount(s, r[i]);
      assert false;
    }
  }

  // ---------------------------------------------------------------------
  // `operands_in_formula`: the first-occurrence fold, then sorted.

  /** The formula's distinct variables, as written, in ascending order. */
  function SortedOperands(s: string): (r: string)
    ensures StrictlySorted(r)
    ensures forall c :: c in r <==> c in s && IsAlphabetic(c)
  {
    var firsts := TruthTable.FirstOccurrences(s);
    SortDistinct(firsts);
    var r := Sort(firsts);
    assert forall c :: c in r <==> c in multiset(firsts);
    r
  }

  /** The source collects the variables into a vector, then sorts it. */
  method OperandsInFormula(formula: string) returns (operands: string)
    ensures operands == SortedOperands(formula)
    ensures StrictlySorted(operands)
    ensures forall c :: c in operands <==> c in formula && IsAlphabetic(c)
  {
    operands := TruthTable.OperandsInFormula(formula);
    operands := Sort(operands);
  }

  // ---------------------------------------------------------------------
  // `solve`.

  /** The variables of a tree. */
  function Symbols(op: Operator): set<char>
  {
    match op
    case Operand(c) => {c}
    case Not(a) => Symbols(a)
    case And(a, b) => Symbols(a) + Symbols(b)
    case Or(a, b) => Symbols(a) + Symbols(b)
    case Xor(a, b) => Symbols(a) + Symbols(b)
    case Implies(a, b) => Symbols(a) + Symbols(b)
    case Equals(a, b) => Symbols(a) + Symbols(b)
  }

  /** Every integer of every bound set: what `Not` complements within. */
  function Universe(sets: map<char, set<int>>): set<int>
  {
    set c, x | c in sets && x in sets[c] :: x
  }

  /** `solve`: `None` where the source unwraps a missing binding. `Xor` is
      as written: `a \ b`, then `b` minus that, then their union. */
  function Solve(op: Operator, sets: map<char, set<int>>): (r: Option<set<int>>)
    ensures r.Some? <==> Symbols(op) <= sets.Keys
  {
    match op
    case Operand(c) => if c in sets then Some(sets[c]) else None
    case Not(a) =>
      (match Solve(a, sets)
       case Some(x) => Some(Universe(sets) - x)
       case None => None)
    case Or(a, b) =>
      var x, y := Solve(a, sets), Solve(b, sets);
      if x.Some? && y.Some? then Some(x.value + y.value) else None
    case And(a, b) =>
      var x, y := Solve(a, sets), Solve(b, sets);
      if x.Some? && y.Some? then Some(x.value * y.value) else None
    case Xor(a, b) =>
      var x, y := Solve(a, sets), Solve(b, sets);
      if x.Some? && y.Some? then
        var x' := x.value - y.value;
        var y' := y.value - x';
        Some(x' + y')
      else None
    case Implies(a, b) =>
      var x, y := Solve(a, sets), Solve(b, sets);
      if x.Some? && y.Some? then Some(if x.value <= y.value then x.value else {}) else None
    case Equals(a, b) =>
      var x, y := Solve(a, sets), Solve(b, sets);
      if x.Some? && y.Some? then Some(if x.value == y.value then x.value else {}) else None
  }

  /** Every result lies within the union of the bound sets. */
  lemma {:induction false} SolveWithinUniverse(op: Operator, sets: map<char, set<int>>)
    requires Symbols(op) <= sets.Keys
    ensures Solve(op, sets).value <= Universe(sets)
  {
    match op
    case Operand(c) =>
      forall x | x in sets[c]
        ensures x in Universe(sets)
      {
      }
    case Not(a) =>
    case And(a, b) => SolveWithinUniverse(a, sets); SolveWithinUniverse(b, sets);
    case Or(a, b) => SolveWithinUniverse(a, sets); SolveWithinUniverse(b, sets);
    case Xor(a, b) => SolveWithinUniverse(a, sets); SolveWithinUniverse(b, sets);
    case Implies(a, b) => SolveWithinUniverse(a, sets);
    case Equals(a, b) => SolveWithinUniverse(a, sets);
  }

  /** The usual truth value of a tree under a valuation. */
  predicate Holds(op: Operator, val: char -> bool)
  {
    match op
    case Operand(c) => val(c)
    case Not(a) => !Holds(a, val)
    case And(a, b) => Holds(a, val) && Holds(b, val)
    case Or(a, b) => Holds(a, val) || Holds(b, val)
    case Xor(a, b) => Holds(a, val) != Holds(b, val)
    case Implies(a, b) => Holds(a, val) ==> Holds(b, val)
    case Equals(a, b) => Holds(a, val) == Holds(b, val)
  }

  /** Only `Not`, `And` and `Or` nodes above the variables. */
  predicate Basic(op: Operator)
  {
    match op
    case Operand(_) => true
    case Not(a) => Basic(a)
    case And(a, b) => Basic(a) && Basic(b)
    case Or(a, b) => Basic(a) && Basic(b)
    case _ => false
  }

  /** On `Not`, `And` and `Or`, the set semantics is the boolean one taken
      element by element: `x` is in the result exactly when the formula
      holds with each variable true where its set contains `x`. */
  lemma {:induction false} SolvePointwise(op: Operator, sets: map<char, set<int>>, x: int)
    requires Basic(op) && Symbols(op) <= sets.Keys && x in Universe(sets)
    ensures x in Solve(op, sets).value <==> Holds(op, c => c in sets && x in sets[c])
  {
    match op
    case Operand(c) =>
    case Not(a) => SolvePointwise(a, sets, x);
    case And(a, b) => SolvePointwise(a, sets, x); SolvePointwise(b, sets, x);
    case Or(a, b) => SolvePointwise(a, sets, x); SolvePointwise(b, sets, x);
  }

  /** `Xor` as written is the union of its operands' sets. */
  lemma XorIsUnion(a: Operator, b: Operator, sets: map<char, set<int>>)
    requires Symbols(a) + Symbols(b) <= sets.Keys
    ensures Solve(Xor(a, b), sets).value == Solve(a, sets).value + Solve(b, sets).value
  {
  }

  /** ... so it is not the symmetric difference the boolean `Xor` would
      give: with `{1}` for both variables, `1` stays in. */
  lemma XorNotPointwise()
    ensures var sets := map['A' := {1}, 'B' := {1}];
      1 in Solve(Xor(Operand('A'), Operand('B')), sets).value &&
      !Holds(Xor(Operand('A'), Operand('B')), c => c in sets && 1 in sets[c])
  {
    var sets := map['A' := {1}, 'B' := {1}];
    assert 1 in Universe(sets) by { assert 1 in sets['A']; }
  }

  /** `Implies` keeps its left operand's set when it is a subset of the
      right one's, `Equals` when the two are equal; otherwise both give
      the empty set. */
  lemma ImpliesEqualsSubsets(a: Operator, b: Operator, sets: map<char, set<int>>)
    requires Symbols(a) + Symbols(b) <= sets.Keys
    ensures var x, y := Solve(a, sets).value, Solve(b, sets).value;
      Solve(Implies(a, b), sets).value <= x * y &&
      Solve(Equals(a, b), sets).value <= x * y &&
      (Solve(Implies(a, b), sets).value == x <==> x <= y) &&
      (Solve(Equals(a, b), sets).value == x <==> x == y || x == {}) &&
      (!(x <= y) ==> Solve(Implies(a, b), sets).value == {}) &&
      (x != y ==> Solve(Equals(a, b), sets).value == {})
  {
  }

  // ---------------------------------------------------------------------
  // `eval_set`.

  /** The integers of a vector, as the source's `HashSet::from_iter`. */
  function Elements(v: seq<int>): set<int>
  {
    set x | x in v
  }

  /** `operands.zip(sets).collect()` into a map: pairs up to the shorter of
      the two, a later pair replacing an earlier one with the same key. */
  function Bind(operands: string, sets: seq<seq<int>>): (m: map<char, set<int>>)
    ensures forall c :: c in m <==> exists i :: 0 <= i < |operands| && i < |sets| && operands[i] == c
    ensures TruthTable.Distinct(operands) ==>
      forall i :: 0 <= i < |operands| && i < |sets| ==> m[operands[i]] == Elements(sets[i])
  {
    if operands == [] || sets == [] then map[]
    else
      var rest := Bind(operands[1..], sets[1..]);
      BindKeys(operands, sets, rest);
      var m := map[operands[0] := Elements(sets[0])] + rest;
      BindValues(operands, sets, rest, m);
      m
  }

  /** Without repeated variables no pair is replaced. */
  lemma BindValues(operands: string, sets: seq<seq<int>>, rest: map<char, set<int>>,
                   m: map<char, set<int>>)
    requires operands != [] && sets != []
    requires forall c :: c in rest <==>
      exists i :: 1 <= i < |operands| && i < |sets| && operands[i] == c
    requires TruthTable.Distinct(operands[1..]) ==>
      forall i :: 0 <= i < |operands[1..]| && i < |sets[1..]| ==>
        rest[operands[1..][i]] == Elements(sets[1..][i])
    requires m == map[operands[0] := Elements(sets[0])] + rest
    ensures TruthTable.Distinct(operands) ==>
      forall i :: 0 <= i < |operands| && i < |sets| ==> m[operands[i]] == Elements(sets[i])
  {
    if TruthTable.Distinct(operands) {
      assert TruthTable.Distinct(operands[1..]);
      assert operands[0] !in rest;
      forall i | 0 <= i < |operands| && i < |sets|
        ensures operands[i] in m && m[operands[i]] == Elements(sets[i])
      {
        if i > 0 {
          assert operands[1..][i - 1] == operands[i];
          assert operands[i] in rest;
        }
      }
    }
  }

  /** The keys bound after the first pair, counted from the second. */
  lemma BindKeys(operands: string, sets: seq<seq<int>>, rest: map<char, set<int>>)
    requires operands != [] && sets != []
    requires forall c :: c in rest <==>
      exists i :: 0 <= i < |operands[1..]| && i < |sets[1..]| && operands[1..][i] == c
    ensures forall c :: c in rest <==>
      exists i :: 1 <= i < |operands| && i < |sets| && operands[i] == c
  {
    forall c | c in rest
      ensures exists i :: 1 <= i < |operands| && i < |sets| && operands[i] == c
    {
      var i :| 0 <= i < |operands[1..]| && i < |sets[1..]| && operands[1..][i] == c;
      assert operands[i + 1] == c;
    }
    forall c, i | 1 <= i < |operands| && i < |sets| && operands[i] == c
      ensures c in rest
    {
      assert operands[1..][i - 1] == c;
    }
  }

  /** With one set per distinct variable, the bound sets hold exactly the
      integers of the vectors supplied. */
  lemma BindUniverse(operands: string, sets: seq<seq<int>>)
    requires TruthTable.Distinct(operands) && |operands| == |sets|
    ensures forall x :: x in Universe(Bind(operands, sets)) <==>
      exists i :: 0 <= i < |sets| && x in sets[i]
  {
    var m := Bind(operands, sets);
    forall x | x in Universe(m)
      ensures exists i :: 0 <= i < |sets| && x in sets[i]
    {
      var c :| c in m && x in m[c];
      var i :| 0 <= i < |operands| && i < |sets| && operands[i] == c;
      assert x in Elements(sets[i]);
    }
    forall x, i | 0 <= i < |sets| && x in sets[i]
      ensures x in Universe(m)
    {
      assert x in m[operands[i]];
    }
  }

  /** What `eval_set` returns or why it panics: first the count of sets
      against the count of variables, then the parse, then the empty
      formula, then a variable without a set. */
  function EvalSetOf(formula: string, sets: seq<seq<int>>): (r: Result<set<int>>)
    ensures r == Err(ArityMismatch) <==> |sets| != |SortedOperands(formula)|
    ensures |sets| == |SortedOperands(formula)| && Parse(formula).Err? ==>
      r == Err(Parse(formula).error)
    ensures r == Err(EmptyFormula) <==> formula == [] && sets == []
    ensures r.Ok? ==> forall x :: x in r.value ==> exists i :: 0 <= i < |sets| && x in sets[i]
  {
    var operands := SortedOperands(formula);
    if |operands| != |sets| then Err(ArityMismatch)
    else
      match Parse(formula)
      case Err(e) =>
        assert e != ArityMismatch && e != EmptyFormula by { ParseErrors(formula); }
        Err(e)
      case Ok(None) => Err(EmptyFormula)
      case Ok(Some(op)) =>
        var m := Bind(operands, sets);
        BindUniverse(operands, sets);
        match Solve(op, m)
        case Some(x) =>
          SolveWithinUniverse(op, m);
          Ok(x)
        case None => Err(UnboundVariable)
  }

  /** The parser only fails in its own ways. */
  lemma ParseErrors(s: string)
    requires Parse(s).Err?
    ensures Parse(s).error in {StackUnderflow, TooManyOperands, InvalidOperatorToken}
  {
    if Run([], s).Err? {
      RunErrors([], s);
    }
  }

  lemma {:induction false} RunErrors(stack: seq<Operator>, s: string)
    requires Run(stack, s).Err?
    ensures Run(stack, s).error in {StackUnderflow, InvalidOperatorToken}
    decreases s
  {
    if s != [] && Step(stack, s[0]).Ok? {
      RunErrors(Step(stack, s[0]).value, s[1..]);
    }
  }

  /** The source's entry point. */
  method EvalSet(formula: string, sets: seq<seq<int>>) returns (r: Result<set<int>>)
    ensures r == EvalSetOf(formula, sets)
  {
    var operands := OperandsInFormula(formula);
    if |operands| != |sets| {
      return Err(ArityMismatch);
    }
    var operator := FromFormula(formula);
    if operator.Err? {
      return Err(operator.error);
    }
    if operator.value.None? {
      return Err(EmptyFormula);
    }
    var solved := Solve(operator.value.value, Bind(operands, sets));
    if solved.None? {
      return Err(UnboundVariable);
    }
    return Ok(solved.value);
  }

  // ---------------------------------------------------------------------
  // Which variables get a set.

  /** A strictly sorted sequence is fixed by its elements. */
  lemma {:induction false} StrictlySortedUnique(a: string, b: string)
    requires StrictlySorted(a) && StrictlySorted(b)
    requires forall c :: c in a <==> c in b
    ensures a == b
  {
    if a != [] {
      assert a[0] in b;
    }
    if b != [] {
      assert b[0] in a;
    }
    if a != [] && b != [] {
      assert a[0] == b[0];
      forall c
        ensures c in a[1..] <==> c in b[1..]
      {
        if c in a[1..] {
          assert c != a[0] && c in b;
        }
        if c in b[1..] {
          assert c != b[0] && c in a;
        }
      }
      StrictlySortedUnique(a[1..], b[1..]);
      assert a == [a[0]] + a[1..] && b == [b[0]] + b[1..];
    }
  }

  /** The variables of a parsed tree are the formula's letters,
      upper-cased. */
  lemma {:induction false} SymbolsToString(op: Operator)
    requires UpperOperands(op)
    ensures forall c :: c in Symbols(op) <==> c in ToString(op) && IsAlphabetic(c)
  {
    match op
    case Operand(c) =>
    case Not(a) => SymbolsToString(a);
    case And(a, b) => SymbolsToString(a); SymbolsToString(b);
    case Or(a, b) => SymbolsToString(a); SymbolsToString(b);
    case Xor(a, b) => SymbolsToString(a); SymbolsToString(b);
    case Implies(a, b) => SymbolsToString(a); SymbolsToString(b);
    case Equals(a, b) => SymbolsToString(a); SymbolsToString(b);
  }

  /** Without lower-case letters every variable is bound: the only way to
      reach the source's failing `unwrap` is a lower-case variable, which
      is bound as written but looked up upper-cased. */
  lemma NoUnboundVariable(formula: string, sets: seq<seq<int>>)
    requires forall i :: 0 <= i < |formula| ==> !IsLower(formula[i])
    ensures EvalSetOf(formula, sets) != Err(UnboundVariable)
  {
    var operands := SortedOperands(formula);
    if Parse(formula).Err? {
      ParseErrors(formula);
    } else if |operands| == |sets| && Parse(formula).value.Some? {
      var op := Parse(formula).value.value;
      ToStringParseUpper(formula);
      ToStringParse(formula);
      SymbolsToString(op);
      forall c | c in Symbols(op)
        ensures c in Bind(operands, sets)
      {
        assert c in operands;
        var i :| 0 <= i < |operands| && operands[i] == c;
      }
      assert Solve(op, Bind(operands, sets)).Some?;
    }
  }

  lemma LowerCaseUnbound()
    ensures EvalSetOf("a", [[1]]) == Err(UnboundVariable)
  {
    var m := Bind("a", [[1]]);
    StrictlySortedUnique(SortedOperands("a"), "a");
    ParseLowerCase();
    assert "a"[1..] == "";
    assert 'A' !in m;
    EvalSetUnbound("a", [[1]], Operand('A'), "a", m);
  }

  /** A formula that parses, with one set per variable, but whose tree
      looks up a variable that got no set. */
  lemma EvalSetUnbound(formula: string, sets: seq<seq<int>>, op: Operator,
                       operands: string, m: map<char, set<int>>)
    requires operands == SortedOperands(formula) && |operands| == |sets|
    requires Parse(formula) == Ok(Some(op))
    requires m == Bind(operands, sets) && !(Symbols(op) <= m.Keys)
    ensures EvalSetOf(formula, sets) == Err(UnboundVariable)
  {
  }

  // ---------------------------------------------------------------------
  // The source's tests.

  /** The variables are `A` and `B`, in that order. */
  lemma OperandsAB(formula: string)
    requires forall c :: c in formula && IsAlphabetic(c) <==> c == 'A' || c == 'B'
    ensures SortedOperands(formula) == "AB"
  {
    StrictlySortedUnique(SortedOperands(formula), "AB");
  }

  lemma BindAB(sets: seq<seq<int>>)
    requires |sets| == 2
    ensures Bind("AB", sets) == map['A' := Elements(sets[0]), 'B' := Elements(sets[1])]
  {
    assert "AB"[1..] == "B" && "B"[1..] == "";
    assert Bind("", sets[1..][1..]) == map[];
    assert Bind("B", sets[1..]) == map['B' := Elements(sets[1])];
  }

  /** One set for two variables. */
  lemma ArityTooFewSets()
    ensures EvalSetOf("A|B", [[1]]) == Err(ArityMismatch)
  {
    assert |SortedOperands("A|B")| == 2 by {
      OperandsAB("A|B");
    }
  }

  /** The empty formula has no variables, so a set is one too many. */
  lemma ArityEmptyFormula()
    ensures EvalSetOf("", [[1]]) == Err(ArityMismatch)
  {
    StrictlySortedUnique(SortedOperands(""), "");
  }

  lemma UniverseAB(x: set<int>, y: set<int>)
    ensures Universe(map['A' := x, 'B' := y]) == x + y
  {
    var m := map['A' := x, 'B' := y];
    forall v | v in x + y
      ensures v in Universe(m)
    {
      if v in x {
        assert v in m['A'];
      } else {
        assert v in m['B'];
      }
    }
  }

  /** A tree over `A` and `B`, given as its text with two vectors, is
      evaluated over the two sets. */
  lemma EvalAB(op: Operator, sets: seq<seq<int>>)
    requires UpperOperands(op) && Symbols(op) == {'A', 'B'} && |sets| == 2
    ensures EvalSetOf(ToString(op), sets) ==
      Ok(Solve(op, map['A' := Elements(sets[0]), 'B' := Elements(sets[1])]).value)
  {
    var formula, m := ToString(op), map['A' := Elements(sets[0]), 'B' := Elements(sets[1])];
    SymbolsToString(op);
    OperandsAB(formula);
    BindAB(sets);
    ParseToString(op);
    EvalSetSolved(formula, sets, op, "AB", m);
  }

  /** A formula that parses, with one set per variable and every variable
      bound, evaluates to its tree's set. */
  lemma EvalSetSolved(formula: string, sets: seq<seq<int>>, op: Operator,
                      operands: string, m: map<char, set<int>>)
    requires operands == SortedOperands(formula) && |operands| == |sets|
    requires Parse(formula) == Ok(Some(op))
    requires m == Bind(operands, sets) && Symbols(op) <= m.Keys
    ensures EvalSetOf(formula, sets) == Ok(Solve(op, m).value)
  {
  }

  lemma ElementsSmall()
    ensures Elements([1]) == {1} && Elements([2]) == {2}
    ensures Elements([1, 2]) == {1, 2} && Elements([1, 3]) == {1, 3}
  {
  }

  /** `Or` is union. */
  lemma DisjunctionExample()
    ensures EvalSetOf("AB|B|", [[1], [2]]) == Ok({1, 2})
  {
    var op := Or(Or(Operand('A'), Operand('B')), Operand('B'));
    assert ToString(op) == "AB|B|";
    EvalAB(op, [[1], [2]]);
    ElementsSmall();
    DisjunctionSolve();
  }

  lemma DisjunctionSolve()
    ensures Solve(Or(Or(Operand('A'), Operand('B')), Operand('B')), map['A' := {1}, 'B' := {2}]) == Some({1, 2})
  {
    var m := map['A' := {1}, 'B' := {2}];
    assert Solve(Operand('A'), m) == Some({1}) && Solve(Operand('B'), m) == Some({2});
    assert {1} + {2} == {1, 2} && {1, 2} + {2} == {1, 2};
  }

  /** `And` is intersection. */
  lemma ConjunctionExamples()
    ensures EvalSetOf("AB&", [[1], [2]]) == Ok({})
    ensures EvalSetOf("AB&", [[1], [1]]) == Ok({1})
  {
    var op := And(Operand('A'), Operand('B'));
    assert ToString(op) == "AB&";
    EvalAB(op, [[1], [2]]);
    EvalAB(op, [[1], [1]]);
    ElementsSmall();
    ConjunctionSolve();
  }

  lemma ConjunctionSolve()
    ensures Solve(And(Operand('A'), Operand('B')), map['A' := {1}, 'B' := {2}]) == Some({})
    ensures Solve(And(Operand('A'), Operand('B')), map['A' := {1}, 'B' := {1}]) == Some({1})
  {
    var m, m' := map['A' := {1}, 'B' := {2}], map['A' := {1}, 'B' := {1}];
    assert Solve(Operand('A'), m) == Some({1}) && Solve(Operand('B'), m) == Some({2});
    assert Solve(Operand('A'), m') == Some({1}) && Solve(Operand('B'), m') == Some({1});
    assert {1} * {2} == {} by { assert 1 !in {2}; }
    assert {1} * {1} == {1};
  }

  /** `Not` complements within the union of all sets: with a single set
      nothing is left. */
  lemma NegationSingle()
    ensures EvalSetOf("A!", [[1]]) == Ok({})
  {
    var op := Not(Operand('A'));
    assert ToString(op) == "A!";
    EvalA(op, [[1]]);
    ElementsSmall();
    NegationSingleSolve();
  }

  /** A tree over `A` alone, given as its text with one vector, is
      evaluated over that set. */
  lemma EvalA(op: Operator, sets: seq<seq<int>>)
    requires UpperOperands(op) && Symbols(op) == {'A'} && |sets| == 1
    ensures EvalSetOf(ToString(op), sets) == Ok(Solve(op, map['A' := Elements(sets[0])]).value)
  {
    var formula, m := ToString(op), map['A' := Elements(sets[0])];
    SymbolsToString(op);
    StrictlySortedUnique(SortedOperands(formula), "A");
    BindA(sets);
    ParseToString(op);
    EvalSetSolved(formula, sets, op, "A", m);
  }

  lemma BindA(sets: seq<seq<int>>)
    requires |sets| == 1
    ensures Bind("A", sets) == map['A' := Elements(sets[0])]
  {
    assert "A"[1..] == "";
  }

  lemma NegationSingleSolve()
    ensures Solve(Not(Operand('A')), map['A' := {1}]) == Some({})
  {
    var m := map['A' := {1}];
    assert 1 in m['A'];
    assert Universe(m) == {1};
    assert Solve(Operand('A'), m) == Some({1});
    assert {1} - {1} == {};
  }

  lemma NegationUnion()
    ensures EvalSetOf("AB|!", [[1, 3], [1, 2]]) == Ok({})
  {
    var op := Not(Or(Operand('A'), Operand('B')));
    assert ToString(op) == "AB|!";
    EvalAB(op, [[1, 3], [1, 2]]);
    ElementsSmall();
    NegationUnionSolve();
  }

  lemma NegationUnionSolve()
    ensures Solve(Not(Or(Operand('A'), Operand('B'))), map['A' := {1, 3}, 'B' := {1, 2}]) == Some({})
  {
    var m := map['A' := {1, 3}, 'B' := {1, 2}];
    UniverseAB({1, 3}, {1, 2});
    assert Solve(Operand('A'), m) == Some({1, 3}) && Solve(Operand('B'), m) == Some({1, 2});
    assert Solve(Or(Operand('A'), Operand('B')), m) == Some({1, 3} + {1, 2});
    assert ({1, 3} + {1, 2}) - ({1, 3} + {1, 2}) == {};
  }

  lemma NegationOperand()
    ensures EvalSetOf("AB!|", [[1, 3], [1, 2]]) == Ok({1, 3})
  {
    var op := Or(Operand('A'), Not(Operand('B')));
    assert ToString(op) == "AB!|";
    EvalAB(op, [[1, 3], [1, 2]]);
    ElementsSmall();
    NegationOperandSolve();
  }

  lemma NegationOperandSolve()
    ensures Solve(Or(Operand('A'), Not(Operand('B'))), map['A' := {1, 3}, 'B' := {1, 2}]) == Some({1, 3})
  {
    var m := map['A' := {1, 3}, 'B' := {1, 2}];
    UniverseAB({1, 3}, {1, 2});
    assert Solve(Operand('A'), m) == Some({1, 3}) && Solve(Operand('B'), m) == Some({1, 2});
    assert ({1, 3} + {1, 2}) - {1, 2} == {3};
    assert Solve(Not(Operand('B')), m) == Some({3});
    assert {1, 3} + {3} == {1, 3};
  }

  /** `Equals` keeps the set only when both sides agree. */
  lemma EqualsExamples()
    ensures EvalSetOf("AB=", [[1], [2]]) == Ok({})
    ensures EvalSetOf("AB=", [[1], [1]]) == Ok({1})
  {
    var op := Equals(Operand('A'), Operand('B'));
    assert ToString(op) == "AB=";
    EvalAB(op, [[1], [2]]);
    EvalAB(op, [[1], [1]]);
    ElementsSmall();
    EqualsSolve();
  }

  lemma EqualsSolve()
    ensures Solve(Equals(Operand('A'), Operand('B')), map['A' := {1}, 'B' := {2}]) == Some({})
    ensures Solve(Equals(Operand('A'), Operand('B')), map['A' := {1}, 'B' := {1}]) == Some({1})
  {
    assert {1} != {2} by { assert 1 !in {2}; }
  }

  /** `Xor` as written: `{1}` with `{1}` gives `{1}`. */
  lemma XorExamples()
    ensures EvalSetOf("AB^", [[1], [2]]) == Ok({1, 2})
    ensures EvalSetOf("AB^", [[1], [1]]) == Ok({1})
  {
    var op := Xor(Operand('A'), Operand('B'));
    assert ToString(op) == "AB^";
    EvalAB(op, [[1], [2]]);
    EvalAB(op, [[1], [1]]);
    ElementsSmall();
    XorSolve();
  }

  lemma XorSolve()
    ensures Solve(Xor(Operand('A'), Operand('B')), map['A' := {1}, 'B' := {2}]) == Some({1, 2})
    ensures Solve(Xor(Operand('A'), Operand('B')), map['A' := {1}, 'B' := {1}]) == Some({1})
  {
    var m, m' := map['A' := {1}, 'B' := {2}], map['A' := {1}, 'B' := {1}];
    XorIsUnion(Operand('A'), Operand('B'), m);
    XorIsUnion(Operand('A'), Operand('B'), m');
    assert Solve(Operand('A'), m) == Some({1}) && Solve(Operand('B'), m) == Some({2});
    assert Solve(Operand('A'), m') == Some({1}) && Solve(Operand('B'), m') == Some({1});
    assert {1} + {2} == {1, 2} && {1} + {1} == {1};
  }

  /** `Implies` keeps the left set only when it is inside the right one. */
  lemma ImpliesExamples()
    ensures EvalSetOf("AB>", [[1], [2]]) == Ok({})
    ensures EvalSetOf("AB>", [[1, 2], [1]]) == Ok({})
    ensures EvalSetOf("AB>", [[1], [1, 2]]) == Ok({1})
  {
    var op := Implies(Operand('A'), Operand('B'));
    assert ToString(op) == "AB>";
    EvalAB(op, [[1], [2]]);
    EvalAB(op, [[1, 2], [1]]);
    EvalAB(op, [[1], [1, 2]]);
    ElementsSmall();
    ImpliesSolve();
  }

  lemma ImpliesSolve()
    ensures Solve(Implies(Operand('A'), Operand('B')), map['A' := {1}, 'B' := {2}]) == Some({})
    ensures Solve(Implies(Operand('A'), Operand('B')), map['A' := {1, 2}, 'B' := {1}]) == Some({})
    ensures Solve(Implies(Operand('A'), Operand('B')), map['A' := {1}, 'B' := {1, 2}]) == Some({1})
  {
    assert !({1} <= {2}) by { assert 1 !in {2}; }
    assert !({1, 2} <= {1}) by { assert 2 !in {1}; }
  }
}
