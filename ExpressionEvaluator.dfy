/** The evaluator: a scan of the expression that pushes literals onto a value stack and operators
    onto an operator stack, reducing by precedence as it goes (operator-precedence parsing). The
    machine is specified by functions over an explicit state; `Evaluate` is the loop that runs it. */
module ExpressionEvaluator {
  import opened Chars
  import opened Outcomes
  import opened Decimals
  import opened Numerals

  /** The binding strength of each operator character. */
  function PrecedenceMap(): (m: map<char, nat>)
    ensures forall c :: c in m ==> IsOperator(c)
  {
    map['+' := 1, '-' := 1, '*' := 2, '/' := 2]
  }

  /** The evaluator's operator test: the characters that have a precedence. */
  function HasPrecedence(c: char): (b: bool)
    ensures b <==> IsOperator(c)
  {
    c in PrecedenceMap()
  }

  /** The four operators; only characters with a precedence ever reach the operator stack. */
  datatype Op = Plus | Minus | Times | Over

  function Symbol(op: Op): (c: char)
    ensures IsOperator(c)
  {
    match op
    case Plus => '+'
    case Minus => '-'
    case Times => '*'
    case Over => '/'
  }

  function OpOf(c: char): (op: Op)
    requires IsOperator(c)
    ensures Symbol(op) == c
  {
    if c == '+' then Plus else if c == '-' then Minus else if c == '*' then Times else Over
  }

  /** The precedence of an operator: multiplication and division bind tighter than addition and
      subtraction. */
  function Precedence(op: Op): (p: nat)
    ensures 1 <= p <= 2 && (p == 2 <==> op == Times || op == Over)
  {
    if op == Times || op == Over then 2 else 1
  }

  /** Precedence agrees with the table, whose keys are exactly the characters that have a
      precedence. */
  lemma {:induction false} PrecedenceTable()
    ensures forall op: Op :: Symbol(op) in PrecedenceMap() && PrecedenceMap()[Symbol(op)] == Precedence(op)
    ensures forall c :: c in PrecedenceMap() <==> HasPrecedence(c)
  {
    forall op: Op ensures Symbol(op) in PrecedenceMap() && PrecedenceMap()[Symbol(op)] == Precedence(op) {
      match op
      case Plus =>
      case Minus =>
      case Times =>
      case Over =>
    }
  }

  /** The characters `Evaluate` can consume; on any other character the scan makes no progress. */
  predicate Scannable(s: string) {
    forall i :: 0 <= i < |s| ==> IsWhitespace(s[i]) || IsDigit(s[i]) || s[i] == '.' || IsOperator(s[i])
  }

  predicate IsNumberChar(c: char) {
    IsDigit(c) || c == '.'
  }

  // ---------------------------------------------------------------------------------------------
  // Tokens

  datatype Token = Number(text: string) | Operator(op: Op)

  /** The end of the run of digits and points that starts at `j`. */
  function RunEnd(s: string, j: nat): (k: nat)
    requires j <= |s|
    ensures j <= k <= |s|
    ensures k == |s| || !IsNumberChar(s[k])
    decreases |s| - j
  {
    if j < |s| && IsNumberChar(s[j]) then RunEnd(s, j + 1) else j
  }

  /** The run is maximal: every character in it is a digit or a point, and the one after it is not. */
  lemma {:induction false} RunIsMaximal(s: string, j: nat)
    requires j <= |s|
    ensures forall i :: j <= i < RunEnd(s, j) ==> IsNumberChar(s[i])
    decreases |s| - j
  {
    if j < |s| && IsNumberChar(s[j]) {
      RunIsMaximal(s, j + 1);
    }
  }

  /** A literal starts at a digit or a point, or at a `-` that is the first character or follows
      an operator character; any other `-` is subtraction. */
  predicate StartsNumber(s: string, i: nat)
    requires i < |s|
  {
    IsNumberChar(s[i]) || (s[i] == '-' && (i == 0 || HasPrecedence(s[i - 1])))
  }

  /** A literal is its optional sign followed by the maximal run of digits and points. */
  function NumberEnd(s: string, i: nat): (j: nat)
    requires i < |s| && StartsNumber(s, i)
    ensures i < j <= |s|
  {
    RunEnd(s, if s[i] == '-' then i + 1 else i)
  }

  /** Where the turn of the scan at `i` stops: after a whitespace character, after the literal
      that starts at `i`, or after the operator at `i`. */
  function TurnEnd(s: string, i: nat): (j: nat)
    requires i < |s|
    ensures i < j <= |s|
  {
    if IsWhitespace(s[i]) then i + 1
    else if StartsNumber(s, i) then NumberEnd(s, i)
    else i + 1
  }

  /** The tokens the turn at `i` reads: none for whitespace, the literal, or the operator. */
  function TurnTokens(s: string, i: nat): (toks: seq<Token>)
    requires Scannable(s) && i < |s|
    ensures |toks| <= 1
  {
    if IsWhitespace(s[i]) then []
    else if StartsNumber(s, i) then [Number(s[i..NumberEnd(s, i)])]
    else [Operator(OpOf(s[i]))]
  }

  /** The tokens the scan meets from position `i` on. */
  function Tokens(s: string, i: nat): seq<Token>
    requires i <= |s| && Scannable(s)
    decreases |s| - i
  {
    if i == |s| then [] else TurnTokens(s, i) + Tokens(s, TurnEnd(s, i))
  }

  // ---------------------------------------------------------------------------------------------
  // One binary operation

  /** `left op right` in a 34-digit HALF_UP context; only a divisor that compares equal to zero
      fails, as a division by zero. */
  function ApplyOp(op: Op, left: Decimal, right: Decimal): Result<Decimal> {
    match op
    case Plus => Ok(Round(Add(left, right), PRECISION))
    case Minus => Ok(Round(Subtract(left, right), PRECISION))
    case Times => Ok(Round(Multiply(left, right), PRECISION))
    case Over => if right.unscaled == 0 then Err(DivisionByZero) else Ok(Divide(left, right, PRECISION))
  }

  /** The only failure is a division by a divisor that compares equal to zero. */
  lemma {:induction false} OnlyDivisionByZeroFails(op: Op, left: Decimal, right: Decimal)
    ensures ApplyOp(op, left, right).Err? <==> op == Over && Value(right) == 0.0
    ensures ApplyOp(op, left, right).Err? ==> ApplyOp(op, left, right).error == DivisionByZero
  {
    SignOfValue(right);
  }

  /** Addition, subtraction and multiplication are exact whenever the exact result has at most 34
      digits; rounding only ever touches longer results. */
  lemma {:induction false} ExactSum(left: Decimal, right: Decimal)
    requires NumDigits(Abs(Add(left, right).unscaled)) <= PRECISION
    ensures ApplyOp(Plus, left, right).Ok? && Value(ApplyOp(Plus, left, right).value) == Value(left) + Value(right)
  {
    assert ApplyOp(Plus, left, right) == Ok(Add(left, right));
  }

  lemma {:induction false} ExactDifference(left: Decimal, right: Decimal)
    requires NumDigits(Abs(Subtract(left, right).unscaled)) <= PRECISION
    ensures ApplyOp(Minus, left, right).Ok? && Value(ApplyOp(Minus, left, right).value) == Value(left) - Value(right)
  {
    assert ApplyOp(Minus, left, right) == Ok(Subtract(left, right));
  }

  lemma {:induction false} ExactProduct(left: Decimal, right: Decimal)
    requires NumDigits(Abs(Multiply(left, right).unscaled)) <= PRECISION
    ensures ApplyOp(Times, left, right).Ok? && Value(ApplyOp(Times, left, right).value) == Value(left) * Value(right)
  {
    assert ApplyOp(Times, left, right) == Ok(Multiply(left, right));
  }

  /** A zero dividend divided by a non-zero divisor gives zero. */
  lemma {:induction false} ZeroDividend(left: Decimal, right: Decimal)
    requires Value(left) == 0.0 && Value(right) != 0.0
    ensures ApplyOp(Over, left, right).Ok? && Value(ApplyOp(Over, left, right).value) == 0.0
  {
    SignOfValue(left);
    SignOfValue(right);
    SignOfValue(Divide(left, right, PRECISION));
  }

  /** Pops the right and then the left operand and pushes their result; a stack with fewer than
      two values is an invalid expression. */
  function Applied(values: seq<Decimal>, op: Op): (r: Result<seq<Decimal>>)
    ensures |values| < 2 ==> r == Err(InvalidExpression)
    ensures r.Ok? ==>
      |values| >= 2 && |r.value| == |values| - 1 && r.value[..|values| - 2] == values[..|values| - 2] &&
      ApplyOp(op, values[|values| - 2], values[|values| - 1]) == Ok(r.value[|values| - 2])
    ensures r.Err? && |values| >= 2 ==> ApplyOp(op, values[|values| - 2], values[|values| - 1]) == Err(r.error)
  {
    if |values| < 2 then Err(InvalidExpression)
    else
      match ApplyOp(op, values[|values| - 2], values[|values| - 1])
      case Err(e) => Err(e)
      case Ok(v) => Ok(values[..|values| - 2] + [v])
  }

  method ApplyOperation(values: seq<Decimal>, op: Op) returns (r: Result<seq<Decimal>>)
    ensures r == Applied(values, op)
  {
    if |values| < 2 {
      return Err(InvalidExpression);
    }
    var rest := values;
    var right := rest[|rest| - 1];
    rest := rest[..|rest| - 1];
    var left := rest[|rest| - 1];
    rest := rest[..|rest| - 1];
    assert rest == values[..|values| - 2];
    var result := ApplyOp(op, left, right);
    match result
    case Err(e) => r := Err(e);
    case Ok(v) => r := Ok(rest + [v]);
  }

  // ---------------------------------------------------------------------------------------------
  // The two-stack machine

  /** The value stack and the operator stack, each with its top at the end. */
  datatype Machine = Machine(values: seq<Decimal>, operators: seq<Op>)

  const Initial := Machine([], [])

  /** Applies the operator on top of the operator stack. */
  function Apply(m: Machine): (r: Result<Machine>)
    requires |m.operators| > 0
    ensures r.Ok? ==> r.value.operators == m.operators[..|m.operators| - 1] && |r.value.values| + 1 == |m.values|
    ensures r.Ok? ==> |m.values| >= 2 && r.value.values[..|m.values| - 2] == m.values[..|m.values| - 2]
  {
    match Applied(m.values, m.operators[|m.operators| - 1])
    case Err(e) => Err(e)
    case Ok(vs) => Ok(Machine(vs, m.operators[..|m.operators| - 1]))
  }

  /** No stacked operator on top binds at least as strongly as `prec`. */
  predicate Settled(operators: seq<Op>, prec: nat) {
    |operators| == 0 || Precedence(operators[|operators| - 1]) < prec
  }

  /** What a successful reduction of `m` against `prec` leaves as `r`: the operator stack cut to a
      prefix whose top binds less strongly than `prec`; every operator popped binds at least as
      strongly; one value fewer for each popped operator; when nothing is popped, `m` itself; and
      when something is, the values below the last result untouched. */
  predicate Reduced(m: Machine, prec: nat, r: Machine) {
    var n := |r.operators|;
    n <= |m.operators| && r.operators == m.operators[..n] &&
    |r.values| + |m.operators| == |m.values| + n &&
    Settled(r.operators, prec) &&
    (forall k :: n <= k < |m.operators| ==> Precedence(m.operators[k]) >= prec) &&
    (n == |m.operators| ==> r == m) &&
    (n < |m.operators| ==> |r.values| >= 1 && r.values[..|r.values| - 1] == m.values[..|r.values| - 1])
  }

  /** Applies stacked operators while the top one binds at least as strongly as `prec`. */
  function Reduce(m: Machine, prec: nat): (r: Result<Machine>)
    ensures r.Ok? ==> Reduced(m, prec, r.value)
    decreases |m.operators|
  {
    if Settled(m.operators, prec) then
      assert m.operators[..|m.operators|] == m.operators;
      Ok(m)
    else
      match Apply(m)
      case Err(e) => Err(e)
      case Ok(m') =>
        var r := Reduce(m', prec);
        if r.Ok? then ReducedAfterApply(m, m', r.value, prec); r else r
  }

  /** One application of the top operator, which binds at least as strongly as `prec`, followed by
      a reduction of what is left, is a reduction of the whole. */
  lemma {:induction false} ReducedAfterApply(m: Machine, m': Machine, r: Machine, prec: nat)
    requires |m.operators| > 0 && !Settled(m.operators, prec)
    requires Apply(m) == Ok(m') && Reduced(m', prec, r)
    ensures Reduced(m, prec, r)
  {
    var n := |r.operators|;
    assert m'.operators[..n] == m.operators[..n];
    assert m'.values[..|m.values| - 2] == m.values[..|m.values| - 2];
    assert forall k :: n <= k < |m.operators| ==> Precedence(m.operators[k]) >= prec by {
      forall k | n <= k < |m.operators| ensures Precedence(m.operators[k]) >= prec {
        if k < |m'.operators| {
          assert m.operators[k] == m'.operators[k];
        }
      }
    }
    if n == |m'.operators| {
      assert r == m';
    } else {
      var below := |r.values| - 1;
      assert m'.values[..below] == m.values[..below];
    }
  }

  /** Pushes an operator after a successful reduction. */
  function Pushed(r: Result<Machine>, op: Op): Result<Machine> {
    match r
    case Err(e) => Err(e)
    case Ok(m) => Ok(Machine(m.values, m.operators + [op]))
  }

  /** A literal that does not read as a decimal is an invalid expression; an operator first
      reduces everything that binds at least as strongly, then is pushed. */
  function Step(m: Machine, t: Token): (r: Result<Machine>)
    ensures r.Ok? && t.Number? ==> r.value.operators == m.operators && |r.value.values| == |m.values| + 1
    ensures r.Ok? && t.Operator? ==> |r.value.operators| > 0 && r.value.operators[|r.value.operators| - 1] == t.op
  {
    match t
    case Number(text) =>
      (match ParseDecimal(text)
       case None => Err(InvalidExpression)
       case Some(d) => Ok(Machine(m.values + [d], m.operators)))
    case Operator(op) => Pushed(Reduce(m, Precedence(op)), op)
  }

  /** Steps the machine over the tokens, stopping at the first failure. */
  function Run(m: Machine, toks: seq<Token>): Result<Machine>
    decreases |toks|
  {
    if toks == [] then Ok(m)
    else
      match Step(m, toks[0])
      case Err(e) => Err(e)
      case Ok(m') => Run(m', toks[1..])
  }

  /** Running a single token is one step. */
  lemma {:induction false} RunSingle(m: Machine, t: Token)
    ensures Run(m, [t]) == Step(m, t)
  {
    assert [t][1..] == [];
  }

  /** The top of the value stack, once no operator is left; an empty stack is an invalid
      expression. */
  function Conclude(r: Result<Machine>): Result<Decimal> {
    match r
    case Err(e) => Err(e)
    case Ok(m) => if |m.values| == 0 then Err(InvalidExpression) else Ok(m.values[|m.values| - 1])
  }

  /** Applies every remaining operator, then takes the top of the value stack: every precedence is
      at least 1, so reducing against 0 empties the operator stack. */
  function Finish(m: Machine): (r: Result<Decimal>)
    ensures |m.operators| == 0 ==> r == (if |m.values| == 0 then Err(InvalidExpression) else Ok(m.values[|m.values| - 1]))
  {
    Conclude(Reduce(m, 0))
  }

  /** Runs the machine over a token sequence, stopping at the first failure, and finishes it. */
  function Complete(m: Machine, toks: seq<Token>): Result<Decimal>
    decreases |toks|
  {
    if toks == [] then Finish(m)
    else
      match Step(m, toks[0])
      case Err(e) => Err(e)
      case Ok(m') => Complete(m', toks[1..])
  }

  /** What evaluating `s` yields: its tokens run from the empty machine, then finished. */
  function Evaluation(s: string): Result<Decimal>
    requires Scannable(s)
  {
    Complete(Initial, Tokens(s, 0))
  }

  /** Running a prefix of the tokens, then completing from where it left the machine, is
      completing the whole. */
  lemma {:induction false} CompleteAppend(m: Machine, head: seq<Token>, rest: seq<Token>)
    ensures Complete(m, head + rest) ==
      match Run(m, head)
      case Err(e) => Err(e)
      case Ok(m') => Complete(m', rest)
    decreases |head|
  {
    if head != [] {
      assert (head + rest)[0] == head[0];
      assert (head + rest)[1..] == head[1..] + rest;
      match Step(m, head[0])
      case Err(e) =>
      case Ok(m') => CompleteAppend(m', head[1..], rest);
    } else {
      assert head + rest == rest;
    }
  }

  lemma {:induction false} CompleteStep(m: Machine, t: Token, rest: seq<Token>)
    ensures Complete(m, [t] + rest) ==
      match Step(m, t)
      case Err(e) => Err(e)
      case Ok(m') => Complete(m', rest)
  {
    assert ([t] + rest)[0] == t;
    assert ([t] + rest)[1..] == rest;
  }

  /** At the end of the input only the remaining operators are left to apply. */
  lemma {:induction false} ResumeAtEnd(m: Machine, s: string)
    requires Scannable(s)
    ensures Complete(m, Tokens(s, |s|)) == Conclude(Reduce(m, 0))
  {
  }

  // ---------------------------------------------------------------------------------------------
  // The scan

  /** How evaluation goes on once the scan has reached `j` with the stacks `r`, or the failure
      that ended it. */
  function Resumed(r: Result<Machine>, s: string, j: nat): Result<Decimal>
    requires j <= |s| && Scannable(s)
  {
    match r
    case Err(e) => Err(e)
    case Ok(m) => Complete(m, Tokens(s, j))
  }

  /** Scans the run of digits and points that starts at `i`. */
  method ScanRun(s: string, i: nat) returns (j: nat)
    requires i <= |s|
    ensures j == RunEnd(s, i)
  {
    j := i;
    while j < |s| && (IsDigit(s[j]) || s[j] == '.')
      invariant i <= j <= |s|
      invariant RunEnd(s, j) == RunEnd(s, i)
      decreases |s| - j
    {
      j := j + 1;
    }
  }

  /** Pops and applies operators while the top one binds at least as strongly as `prec`. */
  method ReduceStacks(values: seq<Decimal>, operators: seq<Op>, prec: nat) returns (r: Result<Machine>)
    ensures r == Reduce(Machine(values, operators), prec)
  {
    var vs, ops := values, operators;
    while |ops| > 0 && Precedence(ops[|ops| - 1]) >= prec
      invariant Reduce(Machine(vs, ops), prec) == Reduce(Machine(values, operators), prec)
      decreases |ops|
    {
      var op := ops[|ops| - 1];
      ops := ops[..|ops| - 1];
      var applied := ApplyOperation(vs, op);
      if applied.Err? {
        return Err(applied.error);
      }
      vs := applied.value;
    }
    return Ok(Machine(vs, ops));
  }

  /** One turn of the scan at `i`: the stacks it leaves (or the failure it meets) and where the
      scan goes on. Whitespace is skipped; a literal is read and its value pushed; an operator
      reduces the stacks and is pushed. */
  function Scan(s: string, i: nat, m: Machine): (r: (Result<Machine>, nat))
    requires Scannable(s) && i < |s|
  {
    (Run(m, TurnTokens(s, i)), TurnEnd(s, i))
  }

  /** A turn of the scan consumes exactly the next token: evaluation from `i` is evaluation from
      where the turn stops, with the stacks it leaves. */
  lemma {:induction false} ScanResumes(s: string, i: nat, m: Machine)
    requires Scannable(s) && i < |s|
    ensures Complete(m, Tokens(s, i)) == Resumed(Scan(s, i, m).0, s, Scan(s, i, m).1)
  {
    CompleteAppend(m, TurnTokens(s, i), Tokens(s, TurnEnd(s, i)));
  }

  /** Reads the literal that starts at `i`: its optional sign, then the run of digits and points. */
  method ReadNumber(s: string, i: nat, values: seq<Decimal>, operators: seq<Op>) returns (r: Result<Machine>, j: nat)
    requires i < |s| && StartsNumber(s, i)
    ensures j == NumberEnd(s, i) && r == Step(Machine(values, operators), Number(s[i..j]))
  {
    j := i;
    if s[i] == '-' {
      j := j + 1;
    }
    j := ScanRun(s, j);
    var parsed := ParseDecimal(s[i..j]);
    if parsed.None? {
      return Err(InvalidExpression), j;
    }
    r := Ok(Machine(values + [parsed.value], operators));
  }

  /** Reduces the stacks against the operator at `i`, then pushes it. */
  method PushOperator(s: string, i: nat, values: seq<Decimal>, operators: seq<Op>) returns (r: Result<Machine>)
    requires i < |s| && IsOperator(s[i])
    ensures r == Step(Machine(values, operators), Operator(OpOf(s[i])))
  {
    var op := OpOf(s[i]);
    var reduced := ReduceStacks(values, operators, Precedence(op));
    if reduced.Err? {
      return Err(reduced.error);
    }
    r := Ok(Machine(reduced.value.values, reduced.value.operators + [op]));
  }

  /** One turn of the scan at `i`. */
  method Advance(s: string, i: nat, values: seq<Decimal>, operators: seq<Op>) returns (r: Result<Machine>, j: nat)
    requires Scannable(s) && i < |s|
    ensures (r, j) == Scan(s, i, Machine(values, operators))
  {
    var c := s[i];
    if IsWhitespace(c) {
      return Ok(Machine(values, operators)), i + 1;
    }
    if IsDigit(c) || c == '.' || (c == '-' && (i == 0 || HasPrecedence(s[i - 1]))) {
      r, j := ReadNumber(s, i, values, operators);
      RunSingle(Machine(values, operators), Number(s[i..j]));
      return;
    }
    r := PushOperator(s, i, values, operators);
    j := i + 1;
    RunSingle(Machine(values, operators), Operator(OpOf(s[i])));
  }

  /** The scan loop: turn by turn until the end of the input, then every remaining operator is
      applied and the top of the value stack is the result. */
  method Evaluate(s: string) returns (r: Result<Decimal>)
    requires Scannable(s)
    ensures r == Evaluation(s)
  {
    var values: seq<Decimal> := [];
    var operators: seq<Op> := [];
    var i := 0;
    while i < |s|
      invariant 0 <= i <= |s|
      invariant Complete(Machine(values, operators), Tokens(s, i)) == Evaluation(s)
      decreases |s| - i
    {
      ScanResumes(s, i, Machine(values, operators));
      var next, j := Advance(s, i, values, operators);
      if next.Err? {
        return Err(next.error);
      }
      values, operators, i := next.value.values, next.value.operators, j;
    }
    // Every precedence is at least 1, so reducing against 0 applies all remaining operators.
    ResumeAtEnd(Machine(values, operators), s);
    var drained := ReduceStacks(values, operators, 0);
    if drained.Err? {
      return Err(drained.error);
    }
    values := drained.value.values;
    if |values| == 0 {
      return Err(InvalidExpression);
    }
    return Ok(values[|values| - 1]);
  }
}
