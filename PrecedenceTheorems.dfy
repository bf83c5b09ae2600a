/** Precedence and associativity of the two-stack machine, stated against direct applications of
    the operators: what `a op1 b op2 c` evaluates to, and worked expressions of the calculator. */
module PrecedenceTheorems {
  import opened Chars
  import opened Outcomes
  import opened Decimals
  import opened Numerals
  import opened ExpressionEvaluator

  /** `r op right`, once r has succeeded. */
  function ThenApply(r: Result<Decimal>, op: Op, right: Decimal): (q: Result<Decimal>)
    ensures r.Err? ==> q == r
    ensures r.Ok? ==> q == ApplyOp(op, r.value, right)
  {
    match r
    case Err(e) => Err(e)
    case Ok(left) => ApplyOp(op, left, right)
  }

  /** `left op r`, once r has succeeded. */
  function ApplyTo(left: Decimal, op: Op, r: Result<Decimal>): (q: Result<Decimal>)
    ensures r.Err? ==> q == r
    ensures r.Ok? ==> q == ApplyOp(op, left, r.value)
  {
    match r
    case Err(e) => Err(e)
    case Ok(right) => ApplyOp(op, left, right)
  }

  // ---------------------------------------------------------------------------------------------
  // Single steps of the machine

  lemma {:induction false} StepNumber(m: Machine, x: string, a: Decimal)
    requires ParseDecimal(x) == Some(a)
    ensures Step(m, Number(x)) == Ok(Machine(m.values + [a], m.operators))
  {
  }

  lemma {:induction false} StepOperator(m: Machine, op: Op)
    ensures Step(m, Operator(op)) == Pushed(Reduce(m, Precedence(op)), op)
  {
  }

  lemma {:induction false} CompleteAfter(m: Machine, t: Token, rest: seq<Token>, m': Machine)
    requires Step(m, t) == Ok(m')
    ensures Complete(m, [t] + rest) == Complete(m', rest)
  {
    CompleteStep(m, t, rest);
  }

  /** Applying the top operator pops two values and pushes their result. */
  lemma {:induction false} ApplyTop(vs: seq<Decimal>, ops: seq<Op>, l: Decimal, r: Decimal, op: Op)
    ensures Apply(Machine(vs + [l, r], ops + [op])) ==
      match ApplyOp(op, l, r)
      case Err(e) => Err(e)
      case Ok(v) => Ok(Machine(vs + [v], ops))
  {
    var m := Machine(vs + [l, r], ops + [op]);
    assert m.values[..|m.values| - 2] == vs;
    assert m.values[|m.values| - 2] == l && m.values[|m.values| - 1] == r;
    assert m.operators[..|m.operators| - 1] == ops;
  }

  /** Two values under one operator that binds at least as strongly as `prec` reduce to one. */
  lemma {:induction false} ReduceOne(a: Decimal, b: Decimal, op: Op, prec: nat)
    requires Precedence(op) >= prec
    ensures Reduce(Machine([a, b], [op]), prec) ==
      match ApplyOp(op, a, b)
      case Err(e) => Err(e)
      case Ok(v) => Ok(Machine([v], []))
  {
    var m := Machine([a, b], [op]);
    assert m.values[..0] == [];
  }

  lemma {:induction false} Spelled(t1: Token, t2: Token, rest: seq<Token>)
    requires |rest| == 1
    ensures [t1, t2, rest[0]] == [t1] + ([t2] + rest)
  {
  }

  lemma {:induction false} SpelledLonger(t1: Token, t2: Token, t3: Token, rest: seq<Token>)
    requires |rest| == 2
    ensures [t1, t2, t3, rest[0], rest[1]] == [t1] + ([t2] + ([t3] + rest))
  {
  }

  // ---------------------------------------------------------------------------------------------
  // Prefixes of `a op1 b op2 c`

  lemma {:induction false} FirstOperand(x: string, a: Decimal, rest: seq<Token>)
    requires ParseDecimal(x) == Some(a)
    ensures Complete(Initial, [Number(x)] + rest) == Complete(Machine([a], []), rest)
  {
    StepNumber(Initial, x, a);
    assert Initial.values + [a] == [a];
    CompleteAfter(Initial, Number(x), rest, Machine([a], []));
  }

  /** The first operator meets an empty operator stack and is pushed as it is. */
  lemma {:induction false} SecondOperand(a: Decimal, op1: Op, y: string, b: Decimal, rest: seq<Token>)
    requires ParseDecimal(y) == Some(b)
    ensures Complete(Machine([a], []), [Operator(op1)] + ([Number(y)] + rest)) == Complete(Machine([a, b], [op1]), rest)
  {
    var m1, m2 := Machine([a], []), Machine([a], [op1]);
    StepOperator(m1, op1);
    assert Reduce(m1, Precedence(op1)) == Ok(m1);
    assert m1.operators + [op1] == [op1];
    CompleteAfter(m1, Operator(op1), [Number(y)] + rest, m2);
    StepNumber(m2, y, b);
    assert m2.values + [b] == [a, b];
    CompleteAfter(m2, Number(y), rest, Machine([a, b], [op1]));
  }

  /** At the end of the input a single pending operator is applied to the two values. */
  lemma {:induction false} FinishOne(a: Decimal, b: Decimal, op: Op)
    ensures Complete(Machine([a, b], [op]), []) == ApplyOp(op, a, b)
  {
    ReduceOne(a, b, op, 0);
  }

  /** The last operand after a single pending value and operator. */
  lemma {:induction false} LastOperand(v: Decimal, op: Op, z: string, c: Decimal)
    requires ParseDecimal(z) == Some(c)
    ensures Complete(Machine([v], [op]), [Number(z)]) == ApplyOp(op, v, c)
  {
    var m := Machine([v], [op]);
    StepNumber(m, z, c);
    assert [Number(z)] == [Number(z)] + [];
    assert m.values + [c] == [v, c];
    CompleteAfter(m, Number(z), [], Machine([v, c], [op]));
    FinishOne(v, c, op);
  }

  /** A second operator that binds no more strongly than the pending one first applies it. */
  lemma {:induction false} LeftFirst(a: Decimal, b: Decimal, op1: Op, op2: Op, z: string, c: Decimal)
    requires Precedence(op1) >= Precedence(op2)
    requires ParseDecimal(z) == Some(c)
    ensures Complete(Machine([a, b], [op1]), [Operator(op2), Number(z)]) == ThenApply(ApplyOp(op1, a, b), op2, c)
  {
    var m3 := Machine([a, b], [op1]);
    ReduceOne(a, b, op1, Precedence(op2));
    StepOperator(m3, op2);
    CompleteStep(m3, Operator(op2), [Number(z)]);
    assert [Operator(op2), Number(z)] == [Operator(op2)] + [Number(z)];
    match ApplyOp(op1, a, b)
    case Err(e) =>
    case Ok(ab) =>
      assert [] + [op2] == [op2];
      LastOperand(ab, op2, z, c);
  }

  /** A second operator that binds more strongly waits above the pending one; at the end it is
      applied first. */
  lemma {:induction false} RightFirst(a: Decimal, b: Decimal, op1: Op, op2: Op, z: string, c: Decimal)
    requires Precedence(op1) < Precedence(op2)
    requires ParseDecimal(z) == Some(c)
    ensures Complete(Machine([a, b], [op1]), [Operator(op2), Number(z)]) == ApplyTo(a, op1, ApplyOp(op2, b, c))
  {
    var m3, m5 := Machine([a, b], [op1]), Machine([a, b], [op1, op2]);
    assert Reduce(m3, Precedence(op2)) == Ok(m3);
    StepOperator(m3, op2);
    assert m3.operators + [op2] == [op1, op2];
    assert [Operator(op2), Number(z)] == [Operator(op2)] + [Number(z)];
    CompleteAfter(m3, Operator(op2), [Number(z)], m5);
    StepNumber(m5, z, c);
    assert m5.values + [c] == [a, b, c];
    assert [Number(z)] == [Number(z)] + [];
    CompleteAfter(m5, Number(z), [], Machine([a, b, c], [op1, op2]));
    FinishTwo(a, b, c, op1, op2);
  }

  lemma {:induction false} FinishTwo(a: Decimal, b: Decimal, c: Decimal, op1: Op, op2: Op)
    ensures Complete(Machine([a, b, c], [op1, op2]), []) == ApplyTo(a, op1, ApplyOp(op2, b, c))
  {
    var m := Machine([a, b, c], [op1, op2]);
    ApplyTop([a], [op1], b, c, op2);
    assert [a] + [b, c] == [a, b, c] && [op1] + [op2] == [op1, op2];
    assert Complete(m, []) == Conclude(Reduce(m, 0));
    match ApplyOp(op2, b, c)
    case Err(e) =>
    case Ok(bc) =>
      assert [a] + [bc] == [a, bc];
      ReduceOne(a, bc, op1, 0);
  }

  // ---------------------------------------------------------------------------------------------
  // The theorems

  /** Two literals and one operator: the operator applied to the two values. */
  lemma {:induction false} TwoOperands(x: string, op: Op, y: string, a: Decimal, b: Decimal)
    requires ParseDecimal(x) == Some(a) && ParseDecimal(y) == Some(b)
    ensures Complete(Initial, [Number(x), Operator(op), Number(y)]) == ApplyOp(op, a, b)
  {
    Spelled(Number(x), Operator(op), [Number(y)]);
    assert [Number(y)] + [] == [Number(y)];
    FirstOperand(x, a, [Operator(op)] + ([Number(y)] + []));
    SecondOperand(a, op, y, b, []);
    FinishOne(a, b, op);
  }

  /** Three literals joined by two operators: when the first operator binds at least as strongly
      as the second, it is applied first, so operators of equal precedence group to the left
      (`10-2-3` is `(10-2)-3`); when the second binds more strongly, it is applied first
      (`2+3*4` is `2+(3*4)`). */
  lemma {:induction false} ThreeOperands(x: string, op1: Op, y: string, op2: Op, z: string, a: Decimal, b: Decimal, c: Decimal)
    requires ParseDecimal(x) == Some(a) && ParseDecimal(y) == Some(b) && ParseDecimal(z) == Some(c)
    ensures Complete(Initial, [Number(x), Operator(op1), Number(y), Operator(op2), Number(z)]) ==
      if Precedence(op1) >= Precedence(op2) then ThenApply(ApplyOp(op1, a, b), op2, c)
      else ApplyTo(a, op1, ApplyOp(op2, b, c))
  {
    var rest := [Operator(op2), Number(z)];
    SpelledLonger(Number(x), Operator(op1), Number(y), rest);
    FirstOperand(x, a, [Operator(op1)] + ([Number(y)] + rest));
    SecondOperand(a, op1, y, b, rest);
    if Precedence(op1) >= Precedence(op2) {
      LeftFirst(a, b, op1, op2, z, c);
    } else {
      RightFirst(a, b, op1, op2, z, c);
    }
  }

  // ---------------------------------------------------------------------------------------------
  // Worked expressions

  /** A one-digit numeral reads as that digit at scale zero. */
  lemma {:induction false} ReadDigit(c: char)
    requires IsDigit(c)
    ensures ParseDecimal([c]) == Some(Decimal(DigitValue(c), 0))
  {
    assert ParseUnsigned([c]) == Some(Decimal(DigitValue(c), 0)) by {
      WholeRoundTrip([c]);
      assert [c][..0] == [];
    }
    SignedParse([c]);
  }

  /** A minus and a digit read as the negated digit. */
  lemma {:induction false} ReadNegativeDigit(c: char)
    requires IsDigit(c)
    ensures ParseDecimal(['-', c]) == Some(Decimal(-(DigitValue(c) as int), 0))
  {
    ReadDigit(c);
    SignedParse([c]);
    assert "-" + [c] == ['-', c];
  }

  /** The run of number characters from `i` ends at the first character that is not one. */
  lemma {:induction false} RunEndOver(s: string, i: nat, j: nat)
    requires i <= j <= |s| && (j == |s| || !IsNumberChar(s[j]))
    requires forall k :: i <= k < j ==> IsNumberChar(s[k])
    ensures RunEnd(s, i) == j
    decreases j - i
  {
    if i < j {
      RunEndOver(s, i + 1, j);
    }
  }

  /** A run of digits and points followed by the end or by an operator is one number token. */
  lemma {:induction false} NumeralToken(s: string, i: nat, j: nat)
    requires Scannable(s) && i < j <= |s| && (j == |s| || IsOperator(s[j]))
    requires forall k :: i <= k < j ==> IsNumberChar(s[k])
    ensures Tokens(s, i) == [Number(s[i..j])] + Tokens(s, j)
  {
    NotWhitespace(s[i]);
    RunEndOver(s, i, j);
  }

  /** In particular a run of digits. */
  lemma {:induction false} DigitsToken(s: string, i: nat, j: nat)
    requires Scannable(s) && i < j <= |s| && (j == |s| || IsOperator(s[j]))
    requires AllDigits(s[i..j])
    ensures Tokens(s, i) == [Number(s[i..j])] + Tokens(s, j)
  {
    assert forall k :: i <= k < j ==> s[k] == s[i..j][k - i];
    NumeralToken(s, i, j);
  }

  /** An operator that follows a digit or a point is an operator token. */
  lemma {:induction false} OperatorToken(s: string, i: nat)
    requires Scannable(s) && 0 < i < |s| && IsOperator(s[i]) && IsNumberChar(s[i - 1])
    ensures Tokens(s, i) == [Operator(OpOf(s[i]))] + Tokens(s, i + 1)
  {
    NotWhitespace(s[i]);
  }

  /** A run of digits that reaches the end of the text is its last token. */
  lemma {:induction false} DigitsToEnd(s: string, i: nat, z: string)
    requires Scannable(s) && i < |s| && s[i..|s|] == z && AllDigits(z)
    ensures Tokens(s, i) == [Number(z)]
  {
    assert Tokens(s, |s|) == [];
    DigitsToken(s, i, |s|);
    assert [Number(z)] + [] == [Number(z)];
  }

  /** From `i` on, two digit runs joined by an operator scan as three tokens. */
  lemma {:induction false} TokensOfTwo(s: string, i: nat, y: string, c: char, z: string)
    requires Scannable(s) && i <= |s| && s[i..] == y + [c] + z
    requires |y| > 0 && |z| > 0 && AllDigits(y) && AllDigits(z) && IsOperator(c)
    ensures Tokens(s, i) == [Number(y), Operator(OpOf(c)), Number(z)]
  {
    var p := i + |y|;
    assert s[p] == c && s[i..p] == y && s[p + 1..|s|] == z by {
      assert forall k :: i <= k < p ==> s[k] == s[i..][k - i] == y[k - i];
      assert forall k :: p < k < |s| ==> s[k] == s[i..][k - i] == z[k - p - 1];
      assert s[i..][p - i] == c;
    }
    var tail := [Operator(OpOf(c)), Number(z)];
    assert [Number(y)] + tail == [Number(y), Operator(OpOf(c)), Number(z)];
    assert Tokens(s, p + 1) == [Number(z)] by { DigitsToEnd(s, p + 1, z); }
    assert Tokens(s, p) == tail by {
      OperatorToken(s, p);
    }
    DigitsToken(s, i, p);
  }

  /** Three digit runs joined by two operators scan as five tokens. */
  lemma {:induction false} TokensOfThree(s: string, x: string, c1: char, y: string, c2: char, z: string)
    requires s == x + [c1] + y + [c2] + z
    requires |x| > 0 && |y| > 0 && |z| > 0 && AllDigits(x) && AllDigits(y) && AllDigits(z)
    requires IsOperator(c1) && IsOperator(c2)
    ensures Scannable(s)
    ensures Tokens(s, 0) == [Number(x), Operator(OpOf(c1)), Number(y), Operator(OpOf(c2)), Number(z)]
  {
    var p := |x|;
    assert Scannable(s) && s[p] == c1 && s[0..p] == x && s[p + 1..] == y + [c2] + z by {
      assert forall k :: 0 <= k < p ==> s[k] == x[k];
      assert forall k :: p < k < |s| ==> s[k] == (y + [c2] + z)[k - p - 1];
    }
    var rest := [Number(y), Operator(OpOf(c2)), Number(z)];
    assert [Number(x)] + ([Operator(OpOf(c1))] + rest) ==
      [Number(x), Operator(OpOf(c1)), Number(y), Operator(OpOf(c2)), Number(z)];
    assert Tokens(s, p + 1) == rest by {
      TokensOfTwo(s, p + 1, y, c2, z);
    }
    assert Tokens(s, p) == [Operator(OpOf(c1))] + rest by {
      OperatorToken(s, p);
    }
    DigitsToken(s, 0, p);
  }

  /** On whole numbers with a small result, the three exact operators need no rounding. */
  lemma {:induction false} SmallWholeResult(op: Op, a: int, b: int, x: int)
    requires op != Over && -100 < x < 100
    requires x == match op case Plus => a + b case Minus => a - b case Times => a * b case Over => 0
    ensures ApplyOp(op, Decimal(a, 0), Decimal(b, 0)) == Ok(Decimal(x, 0))
  {
    assert Pow10(0) == 1;
    assert NumDigits(Abs(x)) <= 2 by {
      if Abs(x) >= 10 {
        assert NumDigits(Abs(x)) == 1 + NumDigits(Abs(x) / 10);
      }
    }
    match op
    case Plus =>
      assert Add(Decimal(a, 0), Decimal(b, 0)) == Decimal(x, 0);
    case Minus =>
      assert Negate(Decimal(b, 0)) == Decimal(-b, 0);
      assert Subtract(Decimal(a, 0), Decimal(b, 0)) == Decimal(x, 0);
    case Times =>
      assert Multiply(Decimal(a, 0), Decimal(b, 0)) == Decimal(x, 0);
  }

  lemma {:induction false} DigitProduct(y: int, z: int)
    requires 0 <= y <= 9 && 0 <= z <= 9
    ensures 0 <= y * z <= 81 && y * -z == -(y * z)
  {
    assert y * z <= 9 * z;
  }

  /** TokensOfThree on one-digit numbers. */
  lemma {:induction false} TokensOfThreeDigits(a: char, c1: char, b: char, c2: char, c: char)
    requires IsDigit(a) && IsDigit(b) && IsDigit(c) && IsOperator(c1) && IsOperator(c2)
    ensures Scannable([a, c1, b, c2, c])
    ensures Tokens([a, c1, b, c2, c], 0) == [Number([a]), Operator(OpOf(c1)), Number([b]), Operator(OpOf(c2)), Number([c])]
  {
    assert [a, c1, b, c2, c] == [a] + [c1] + [b] + [c2] + [c];
    TokensOfThree([a, c1, b, c2, c], [a], c1, [b], c2, [c]);
  }

  /** ThreeOperands on one-digit numbers when the first operator binds at least as strongly. */
  lemma {:induction false} ThreeDigitsLeft(a: char, op1: Op, b: char, op2: Op, c: char)
    requires IsDigit(a) && IsDigit(b) && IsDigit(c) && Precedence(op1) >= Precedence(op2)
    ensures Complete(Initial, [Number([a]), Operator(op1), Number([b]), Operator(op2), Number([c])]) ==
      ThenApply(ApplyOp(op1, Decimal(DigitValue(a), 0), Decimal(DigitValue(b), 0)), op2, Decimal(DigitValue(c), 0))
  {
    ReadDigit(a);
    ReadDigit(b);
    ReadDigit(c);
    ThreeOperands([a], op1, [b], op2, [c], Decimal(DigitValue(a), 0), Decimal(DigitValue(b), 0), Decimal(DigitValue(c), 0));
  }

  /** ThreeOperands on one-digit numbers when the second operator binds more strongly. */
  lemma {:induction false} ThreeDigitsRight(a: char, op1: Op, b: char, op2: Op, c: char)
    requires IsDigit(a) && IsDigit(b) && IsDigit(c) && Precedence(op1) < Precedence(op2)
    ensures Complete(Initial, [Number([a]), Operator(op1), Number([b]), Operator(op2), Number([c])]) ==
      ApplyTo(Decimal(DigitValue(a), 0), op1, ApplyOp(op2, Decimal(DigitValue(b), 0), Decimal(DigitValue(c), 0)))
  {
    ReadDigit(a);
    ReadDigit(b);
    ReadDigit(c);
    ThreeOperands([a], op1, [b], op2, [c], Decimal(DigitValue(a), 0), Decimal(DigitValue(b), 0), Decimal(DigitValue(c), 0));
  }

  /** The evaluation of `a c1 b c2 c` on one-digit numbers when the first operator binds at least
      as strongly. */
  lemma {:induction false} EvaluationLeft(a: char, c1: char, b: char, c2: char, c: char)
    requires IsDigit(a) && IsDigit(b) && IsDigit(c) && IsOperator(c1) && IsOperator(c2)
    requires Precedence(OpOf(c1)) >= Precedence(OpOf(c2))
    ensures Scannable([a, c1, b, c2, c])
    ensures Evaluation([a, c1, b, c2, c]) ==
      ThenApply(ApplyOp(OpOf(c1), Decimal(DigitValue(a), 0), Decimal(DigitValue(b), 0)), OpOf(c2), Decimal(DigitValue(c), 0))
  {
    TokensOfThreeDigits(a, c1, b, c2, c);
    ThreeDigitsLeft(a, OpOf(c1), b, OpOf(c2), c);
  }

  /** Multiplication binds tighter: `a+b*c` evaluates to a + b × c ("2+3*4" to 14, not 20). */
  lemma {:induction false} TimesBeforePlus(a: char, b: char, c: char)
    requires IsDigit(a) && IsDigit(b) && IsDigit(c)
    ensures Scannable([a, '+', b, '*', c])
    ensures Evaluation([a, '+', b, '*', c]) == Ok(Decimal(DigitValue(a) + DigitValue(b) * DigitValue(c), 0))
  {
    var x: int, y: int, z: int := DigitValue(a), DigitValue(b), DigitValue(c);
    TokensOfThreeDigits(a, '+', b, '*', c);
    ThreeDigitsRight(a, Plus, b, Times, c);
    assert ApplyOp(Times, Decimal(y, 0), Decimal(z, 0)) == Ok(Decimal(y * z, 0)) by {
      DigitProduct(y, z);
      SmallWholeResult(Times, y, z, y * z);
    }
    assert ApplyOp(Plus, Decimal(x, 0), Decimal(y * z, 0)) == Ok(Decimal(x + y * z, 0)) by {
      DigitProduct(y, z);
      SmallWholeResult(Plus, x, y * z, x + y * z);
    }
  }

  /** Two subtractions of single digits, from left to right. */
  lemma {:induction false} SubtractTwice(x: int, y: int, z: int)
    requires 0 <= x < 10 && 0 <= y < 10 && 0 <= z < 10
    ensures ThenApply(ApplyOp(Minus, Decimal(x, 0), Decimal(y, 0)), Minus, Decimal(z, 0)) == Ok(Decimal(x - y - z, 0))
  {
    var w := ApplyOp(Minus, Decimal(x, 0), Decimal(y, 0));
    assert w == Ok(Decimal(x - y, 0)) by { SmallWholeResult(Minus, x, y, x - y); }
    SmallWholeResult(Minus, x - y, z, x - y - z);
  }

  /** Subtraction groups to the left: `a-b-c` evaluates to (a - b) - c ("9-5-3" to 1, not 7). */
  lemma {:induction false} SubtractionGroupsLeft(a: char, b: char, c: char)
    requires IsDigit(a) && IsDigit(b) && IsDigit(c)
    ensures Scannable([a, '-', b, '-', c])
    ensures Evaluation([a, '-', b, '-', c]) == Ok(Decimal((DigitValue(a) - DigitValue(b)) - DigitValue(c), 0))
  {
    var x: int, y: int, z: int := DigitValue(a), DigitValue(b), DigitValue(c);
    var s := [a, '-', b, '-', c];
    var r := ThenApply(ApplyOp(Minus, Decimal(x, 0), Decimal(y, 0)), Minus, Decimal(z, 0));
    assert Scannable(s) && Evaluation(s) == r by {
      assert OpOf('-') == Minus;
      EvaluationLeft(a, '-', b, '-', c);
    }
    assert r == Ok(Decimal(x - y - z, 0)) by { SubtractTwice(x, y, z); }
  }

  /** Dividing by zero is its own failure: `a/0` is a division by zero, not an invalid expression. */
  lemma {:induction false} DivisionByZeroIsDistinct(a: char)
    requires IsDigit(a)
    ensures Scannable([a, '/', '0'])
    ensures Evaluation([a, '/', '0']) == Err(DivisionByZero)
  {
    var s := [a, '/', '0'];
    var toks := [Number([a]), Operator(Over), Number(['0'])];
    assert Scannable(s) && Tokens(s, 0) == toks by {
      assert Scannable(s);
      assert s[0..] == [a] + ['/'] + ['0'];
      TokensOfTwo(s, 0, [a], '/', ['0']);
    }
    assert Complete(Initial, toks) == ApplyOp(Over, Decimal(DigitValue(a), 0), Decimal(0, 0)) by {
      ReadDigit(a);
      ReadDigit('0');
      TwoOperands([a], Over, ['0'], Decimal(DigitValue(a), 0), Decimal(0, 0));
    }
  }

  /** `a*-b` scans as a number, an operator and a negative number. */
  lemma {:induction false} TokensOfSignAfterOperator(a: char, b: char)
    requires IsDigit(a) && IsDigit(b)
    ensures Scannable([a, '*', '-', b])
    ensures Tokens([a, '*', '-', b], 0) == [Number([a]), Operator(Times), Number(['-', b])]
  {
    var s := [a, '*', '-', b];
    assert Scannable(s);
    assert Tokens(s, 2) == [Number(['-', b])] by {
      NotWhitespace(s[2]);
      assert RunEnd(s, 4) == 4 && RunEnd(s, 3) == 4;
      assert StartsNumber(s, 2) && NumberEnd(s, 2) == 4;
      assert s[2..4] == ['-', b];
      assert Tokens(s, 4) == [];
    }
    OperatorToken(s, 1);
    assert s[0..1] == [a];
    DigitsToken(s, 0, 1);
  }

  /** A minus right after an operator is the sign of the next number: `a*-b` evaluates to
      -(a × b) ("6*-3" to -18). */
  lemma {:induction false} SignAfterOperator(a: char, b: char)
    requires IsDigit(a) && IsDigit(b)
    ensures Scannable([a, '*', '-', b])
    ensures Evaluation([a, '*', '-', b]) == Ok(Decimal(-(DigitValue(a) * DigitValue(b)), 0))
  {
    var x: int, y: int := DigitValue(a), DigitValue(b);
    var toks := [Number([a]), Operator(Times), Number(['-', b])];
    TokensOfSignAfterOperator(a, b);
    assert Complete(Initial, toks) == ApplyOp(Times, Decimal(x, 0), Decimal(-y, 0)) by {
      ReadDigit(a);
      ReadNegativeDigit(b);
      TwoOperands([a], Times, ['-', b], Decimal(x, 0), Decimal(-y, 0));
    }
    assert ApplyOp(Times, Decimal(x, 0), Decimal(-y, 0)) == Ok(Decimal(-(x * y), 0)) by {
      DigitProduct(x, y);
      SmallWholeResult(Times, x, -y, -(x * y));
    }
  }

  /** Nothing to evaluate: an empty expression is invalid. */
  lemma EmptyIsInvalid()
    ensures Evaluation("") == Err(InvalidExpression)
  {
  }

  /** A minus that follows a minus at the start is taken as a sign with no digits: "--5", what
      `negate` makes of "-5", is an invalid expression. */
  lemma DoubleMinusIsInvalid()
    ensures Evaluation("--5") == Err(InvalidExpression)
  {
    var s := "--5";
    assert Scannable(s);
    assert RunEnd(s, 1) == 1;
    NotWhitespace(s[0]);
    assert StartsNumber(s, 0) && NumberEnd(s, 0) == 1;
    assert s[0..1] == "-";
    assert Tokens(s, 0) == [Number("-")] + Tokens(s, 1);
    assert ParseUnsigned("") == None;
    assert ParseDecimal("-") == None;
    CompleteStep(Initial, Number("-"), Tokens(s, 1));
  }
}
