# Calculator core in Dafny

A model of the three non-UI classes of a small Java desktop calculator, and proofs about them.

- **`Calculator`** holds the expression buffer (a `StringBuilder`) and the `lastWasResult` flag.
  - Key presses edit the buffer: `input`, `operator`, `backspace`, `clear`, `negate`, `percentage`.
  - `calculate` hands the buffer to the evaluator and writes back the canonical text of the
    result (`stripTrailingZeros().toPlainString()`), or shows "Undefined" / "Error".
- **`ExpressionEvaluator`** evaluates `+ - * /` expressions. It uses a value stack and an
  operator stack, reducing by precedence as it scans. Arithmetic is `BigDecimal` in a
  `MathContext(34, HALF_UP)`.
- **`DisplayFormatter`** inserts a space between groups of three integer digits (`format`) and
  removes spaces again (`unformat`).

Modules:

- `Chars`: the character classes, including `Character.isWhitespace` as code point ranges.
- `Outcomes`: `Option`, `Result`, and the two failures, `DivisionByZero` (the
  `ArithmeticException`) and `InvalidExpression` (every other exception).
- `Decimals`: `BigDecimal` as an unscaled integer and a scale.
  - `add`, `subtract`, `multiply` and `negate` are exact, and each is proved to have the exact
    real value.
  - `Round` is the 34-digit HALF_UP context. `Divide` is `divide(divisor, MathContext)`, computed
    in integers, and is proved to be the half-up rounding of the exact quotient.
  - `DivideByHundred` is the exact `divide(new BigDecimal("100"))`.
- `Numerals`:
  - `new BigDecimal(String)` on the characters the calculator produces (`ParseDecimal`);
  - the canonical text (`Canonical`);
  - proofs that canonical text reads back as the same number and has no exponent, no trailing
    point and no trailing fractional zero.
- `ExpressionEvaluator`:
  - the scan and the two-stack machine, as functions over an explicit state (`Tokens`, `Step`,
    `Reduce`, `Complete`, `Evaluation`);
  - the imperative `Evaluate` loop, proved to compute `Evaluation`.
- `PrecedenceTheorems`: what the machine computes for `a op1 b op2 c`, stated against direct
  applications of the operators, and worked examples with one-digit literals: `a+b*c`,
  `a-b-c`, `a*-b`, division by zero, the empty expression, and `--5`.
- `SumOfProducts`: expressions of any length, `x0 op1 x1 op2 x2 ...` with unsigned literals.
  - `Conventional` is the reading the precedence table stands for: `+ -` apply from left to
    right to terms, and each term is its `* /` factors applied from left to right.
  - `Fold` reads the same expression in one pass, closing a term when an additive operator comes.
  - The two-stack machine is proved to stay in step with that pass, failures included, so that
    `Evaluation` of the text is `Conventional` of its operators and operands.
- `Calculator`:
  - each edit as a function of the buffer text (`WithPoint`, `WithOperator`, `WithoutLast`,
    `WithEditedNumber`, `Trimmed`);
  - the `Calculator` class, whose methods apply those functions in place;
  - the class invariant `Valid`: the buffer holds only digits, points and operators, and no
    number in it has two points.
- `DisplayFormatter`:
  - `Format`, whose loop is proved to build the reference grouping `Grouped`;
  - `Unformat`;
  - the round trip `Unformat(Formatted(s)) == s` for every space-free `s`.

## Model

| member | source | states |
|---|---|---|
| Calculator.Calculator.constructor | src/main/java/org/example/Calculator.java:10-12 | A new calculator has an empty buffer, a clear result flag, and satisfies the buffer invariant. |
| Calculator.Calculator.Input | src/main/java/org/example/Calculator.java:17-30 | After a result, the buffer is emptied first. Digits are then appended exactly, and "." goes through `WithPoint`. The flag ends cleared, the display is the buffer, and the invariant is kept. |
| Calculator.TailStart | src/main/java/org/example/Calculator.java:212-217 | The current number starts just after the last operator, or at 0. No operator follows that point. |
| Calculator.TailStartUnique | src/main/java/org/example/Calculator.java:212-217 | Those three properties determine where the current number starts. |
| Calculator.WithPoint | src/main/java/org/example/Calculator.java:207-220 | If the current number already has a point, nothing changes. Otherwise "0." is appended when the buffer is empty or ends in an operator, and "." is appended when it does not. |
| Calculator.Calculator.AddDecimalPoint | src/main/java/org/example/Calculator.java:207-220 | The backward scan, which stops at an operator and returns early at a point, leaves exactly `WithPoint` of the old buffer. |
| Calculator.PointOnEmpty | src/main/java/org/example/Calculator.java:207-210 | A point on an empty buffer (as after a result) gives "0.". |
| Calculator.PointIdempotent | src/main/java/org/example/Calculator.java:212-217 | A second point in the same number changes nothing. |
| Calculator.PointKeepsDotsSeparated | src/main/java/org/example/Calculator.java:207-220 | After a point is added, every pair of points still has an operator between them. |
| Calculator.AppendKeepsDotsSeparated | src/main/java/org/example/Calculator.java:26 | Appending digits keeps every pair of points separated by an operator. |
| Calculator.WithOperator | src/main/java/org/example/Calculator.java:35-53 | On an empty buffer, only "-" is taken. Otherwise a trailing operator or point is overwritten and the length is kept, or else `op` is appended. Either way the prefix is unchanged and the buffer ends with `op`. |
| Calculator.Calculator.Operator | src/main/java/org/example/Calculator.java:35-53 | The buffer becomes `WithOperator` of the old one. The flag is cleared and the display is the buffer. |
| Calculator.OperatorKeepsDotsSeparated | src/main/java/org/example/Calculator.java:43-50 | An operator keeps every pair of points separated by an operator. |
| Calculator.PointAndOperatorKeepAlphabet | src/main/java/org/example/Calculator.java:207-220 | A point or an operator keeps the buffer to digits, points and operators. |
| Calculator.Trimmed | src/main/java/org/example/Calculator.java:63-67 | Exactly one trailing operator is removed, and nothing else. |
| Calculator.BufferIsScannable | src/main/java/org/example/Calculator.java:63-70 | The text handed to the evaluator only holds characters its scan consumes, so it always terminates. |
| Calculator.Calculator.Calculate | src/main/java/org/example/Calculator.java:58-85 | With a result showing or an empty buffer, nothing changes. Otherwise the trimmed buffer is evaluated. A value puts its canonical text in the buffer and sets the flag. A division by zero shows "Undefined", and any other failure shows "Error"; both empty the buffer and clear the flag. Afterwards, a second call changes nothing. |
| Calculator.WithoutLast | src/main/java/org/example/Calculator.java:91-93 | A non-empty buffer loses exactly its last character. An empty one stays empty. |
| Calculator.Calculator.Backspace | src/main/java/org/example/Calculator.java:90-95 | The buffer becomes `WithoutLast`, and the display is "0" when the buffer is empty. The flag is not touched. |
| Calculator.PrefixKeepsDotsSeparated | src/main/java/org/example/Calculator.java:92 | Removing characters from the end keeps every pair of points separated. |
| Calculator.Calculator.Clear | src/main/java/org/example/Calculator.java:100-103 | The buffer is emptied and the flag is cleared. |
| Calculator.Calculator.GetExpression | src/main/java/org/example/Calculator.java:108-110 | Returns the buffer. |
| Calculator.Calculator.IsLastWasResult | src/main/java/org/example/Calculator.java:115-117 | Returns the flag. |
| Calculator.NumberStart | src/main/java/org/example/Calculator.java:129-139 | The last number starts after the nearest operator before the last character, or at 0. It is never empty, because the last character belongs to it even when that character is an operator. |
| Calculator.FindNumberStart | src/main/java/org/example/Calculator.java:129-139 | The `while (start > 0)` backward scan finds `NumberStart`. |
| Calculator.Edited | src/main/java/org/example/Calculator.java:150-151 | Negation gives minus the value. Percent (the same call at lines 194-195) gives the value divided by 100, exactly. |
| Calculator.WithEditedNumber | src/main/java/org/example/Calculator.java:141-160 | The text before the last number is kept. If the last number does not read as a decimal, nothing changes. Otherwise it is replaced by text of the canonical form whose value is -1 times (negate) or 0.01 times (percentage) the old value, with a leading minus exactly when that value is negative. By `CanonicalUnique`, this fixes the new text to the character. |
| Calculator.Calculator.Negate | src/main/java/org/example/Calculator.java:123-161 | An empty buffer shows "0" and stays empty. Otherwise the buffer becomes `WithEditedNumber(_, Negation)`. The flag is not touched. |
| Calculator.Calculator.Percentage | src/main/java/org/example/Calculator.java:167-205 | An empty buffer shows "0" and stays empty. Otherwise the buffer becomes `WithEditedNumber(_, Percent)`. The flag is not touched. |
| Calculator.Calculator.ReplaceLastNumber | src/main/java/org/example/Calculator.java:172-204 | The body `negate` and `percentage` share does exactly `WithEditedNumber`, including the lone-point and unparsable cases, and keeps the invariant. |
| Calculator.CanonicalIsBufferText | src/main/java/org/example/Calculator.java:152 | Canonical number text is made of digits, points and a minus, with at most one point. |
| Calculator.EditKeepsDotsSeparated | src/main/java/org/example/Calculator.java:155 | Replacing the last number keeps every pair of points separated. |
| Calculator.EditKeepsAlphabet | src/main/java/org/example/Calculator.java:199 | Replacing the last number keeps the buffer to digits, points and operators. |
| Calculator.EditAfterOperator | src/main/java/org/example/Calculator.java:149-159 | A buffer ending in an operator does not read as a number (NumberFormatException), so `negate` and `percentage` leave it unchanged. |
| Calculator.NegateIsNotAToggle | src/main/java/org/example/Calculator.java:133-155 | `negate` on "-5" stops its scan after the leading minus and gives "--5". |
| ExpressionEvaluator.PrecedenceMap | src/main/java/org/example/ExpressionEvaluator.java:17-24 | The precedence table has keys only among the four operators. |
| ExpressionEvaluator.PrecedenceTable | src/main/java/org/example/ExpressionEvaluator.java:17-24 | Every operator is in the table with its `Precedence`, and the table's keys are exactly the characters `isOperator` accepts. |
| ExpressionEvaluator.HasPrecedence | src/main/java/org/example/ExpressionEvaluator.java:119-121 | A character is an operator if and only if it is one of `+ - * /`. |
| ExpressionEvaluator.Precedence | src/main/java/org/example/ExpressionEvaluator.java:20-23 | Precedences are 1 and 2, and 2 exactly for `*` and `/`. |
| ExpressionEvaluator.OpOf | src/main/java/org/example/ExpressionEvaluator.java:96-106 | The operator an operator character stands for, inverse to its symbol. |
| ExpressionEvaluator.RunEnd | src/main/java/org/example/ExpressionEvaluator.java:54-58 | The run of digits and points ends at the end of the input or at a character that is neither. |
| ExpressionEvaluator.RunIsMaximal | src/main/java/org/example/ExpressionEvaluator.java:54-58 | Every character of the run is a digit or a point. |
| ExpressionEvaluator.ScanRun | src/main/java/org/example/ExpressionEvaluator.java:54-58 | The inner `while` loop stops at `RunEnd`. |
| ExpressionEvaluator.NumberEnd | src/main/java/org/example/ExpressionEvaluator.java:45-58 | A literal (its optional sign and its run) is never empty and stays within the input. |
| ExpressionEvaluator.TurnEnd | src/main/java/org/example/ExpressionEvaluator.java:36-73 | Every turn of the scan over a scannable input advances. |
| ExpressionEvaluator.OnlyDivisionByZeroFails | src/main/java/org/example/ExpressionEvaluator.java:106-109 | An operation fails if and only if it is a division by a divisor whose value is zero, and then the failure is a division by zero. |
| ExpressionEvaluator.ExactSum | src/main/java/org/example/ExpressionEvaluator.java:98 | When the exact sum has at most 34 digits, the sum is exact. |
| ExpressionEvaluator.ExactDifference | src/main/java/org/example/ExpressionEvaluator.java:101 | When the exact difference has at most 34 digits, the difference is exact. |
| ExpressionEvaluator.ExactProduct | src/main/java/org/example/ExpressionEvaluator.java:104 | When the exact product has at most 34 digits, the product is exact. |
| ExpressionEvaluator.ZeroDividend | src/main/java/org/example/ExpressionEvaluator.java:110 | Zero divided by a non-zero divisor is zero. |
| ExpressionEvaluator.Applied | src/main/java/org/example/ExpressionEvaluator.java:87-117 | Fewer than two values is an invalid expression. Otherwise right and then left are popped, and exactly one result is pushed: the stack shrinks by one and the rest of it is kept. A failure is the operation's own failure. |
| ExpressionEvaluator.ApplyOperation | src/main/java/org/example/ExpressionEvaluator.java:87-117 | The pop, pop, apply, push method computes `Applied`. |
| ExpressionEvaluator.Apply | src/main/java/org/example/ExpressionEvaluator.java:69 | Applying the top operator pops it and leaves one value fewer. |
| ExpressionEvaluator.Reduce | src/main/java/org/example/ExpressionEvaluator.java:67-70 | A successful reduction leaves a prefix of the operator stack whose top binds less strongly than `prec` (or no operator). Every operator it popped binds at least as strongly as `prec`, and it removed one value per popped operator. When nothing is popped, the stacks are unchanged. Otherwise, the values below the final result are untouched. |
| ExpressionEvaluator.ReduceStacks | src/main/java/org/example/ExpressionEvaluator.java:67-70 | The reduction loop computes `Reduce`. |
| ExpressionEvaluator.Step | src/main/java/org/example/ExpressionEvaluator.java:60-72 | A literal pushes one value and leaves the operators alone. An operator ends on top of the operator stack. |
| ExpressionEvaluator.Finish | src/main/java/org/example/ExpressionEvaluator.java:77-81 | With no operators left, the result is the top value, or an invalid expression when the value stack is empty. |
| ExpressionEvaluator.ResumeAtEnd | src/main/java/org/example/ExpressionEvaluator.java:76-81 | At the end of the input, only the final reduction and the pop remain. |
| ExpressionEvaluator.ScanResumes | src/main/java/org/example/ExpressionEvaluator.java:35-74 | One turn of the scan consumes exactly the next token: evaluating from `i` is the same as evaluating from where the turn stops, with the stacks it leaves. |
| ExpressionEvaluator.ReadNumber | src/main/java/org/example/ExpressionEvaluator.java:48-61 | Reading the sign and the run, then parsing it, is a `Step` on that literal. A text `BigDecimal` rejects is an invalid expression. |
| ExpressionEvaluator.PushOperator | src/main/java/org/example/ExpressionEvaluator.java:65-73 | Reducing and then pushing is a `Step` on that operator. |
| ExpressionEvaluator.Advance | src/main/java/org/example/ExpressionEvaluator.java:36-73 | One loop turn: whitespace is skipped, a literal is read (a `-` only at 0 or after an operator), or an operator is pushed. |
| ExpressionEvaluator.Evaluate | src/main/java/org/example/ExpressionEvaluator.java:30-82 | The evaluation loop returns `Evaluation(s)`: the tokens run through the machine from empty stacks and then finished. |
| PrecedenceTheorems.ReduceOne | src/main/java/org/example/ExpressionEvaluator.java:67-70 | Two values under one operator that binds at least as strongly as `prec` reduce to the operation's result. |
| PrecedenceTheorems.LeftFirst | src/main/java/org/example/ExpressionEvaluator.java:67-71 | A second operator that binds no more strongly first applies the pending one. |
| PrecedenceTheorems.RightFirst | src/main/java/org/example/ExpressionEvaluator.java:67-79 | A second operator that binds more strongly waits above the pending one and is applied first at the end. |
| PrecedenceTheorems.FinishTwo | src/main/java/org/example/ExpressionEvaluator.java:77-79 | Remaining operators are applied from the top of the stack down. |
| PrecedenceTheorems.TwoOperands | src/main/java/org/example/ExpressionEvaluator.java:30-82 | `x op y` evaluates to `op` applied to the two values. |
| PrecedenceTheorems.ThreeOperands | src/main/java/org/example/ExpressionEvaluator.java:67-71 | `x op1 y op2 z` is `(x op1 y) op2 z` when op1 binds at least as strongly (left associativity), and `x op1 (y op2 z)` otherwise. |
| PrecedenceTheorems.ReadDigit | src/main/java/org/example/ExpressionEvaluator.java:60 | A one-digit literal reads as that digit. |
| PrecedenceTheorems.ReadNegativeDigit | src/main/java/org/example/ExpressionEvaluator.java:49-52 | A minus and a digit read as the negated digit. |
| PrecedenceTheorems.DigitsToken | src/main/java/org/example/ExpressionEvaluator.java:54-61 | A run of digits followed by the end or by an operator is one number token. |
| PrecedenceTheorems.NumeralToken | src/main/java/org/example/ExpressionEvaluator.java:54-61 | A run of digits and points followed by the end or by an operator is one number token. |
| PrecedenceTheorems.OperatorToken | src/main/java/org/example/ExpressionEvaluator.java:65-73 | An operator after a digit or a point is an operator token, not a sign. |
| PrecedenceTheorems.TokensOfTwo | src/main/java/org/example/ExpressionEvaluator.java:44-73 | Two digit runs joined by an operator scan as number, operator, number. |
| PrecedenceTheorems.TokensOfThree | src/main/java/org/example/ExpressionEvaluator.java:44-73 | Three digit runs joined by two operators scan as five tokens. |
| PrecedenceTheorems.TokensOfSignAfterOperator | src/main/java/org/example/ExpressionEvaluator.java:45-46 | In `a*-b`, the minus after the operator begins the literal `-b`. |
| PrecedenceTheorems.SmallWholeResult | src/main/java/org/example/ExpressionEvaluator.java:97-105 | Addition, subtraction and multiplication of whole numbers with a result below 100 need no rounding. |
| PrecedenceTheorems.TimesBeforePlus | src/main/java/org/example/ExpressionEvaluator.java:20-23 | `a+b*c` evaluates to a + b × c. |
| PrecedenceTheorems.EvaluationLeft | src/main/java/org/example/ExpressionEvaluator.java:67-71 | `a op1 b op2 c` on digits, with op1 binding at least as strongly, evaluates to `(a op1 b) op2 c`, a failure of the first operation included. |
| PrecedenceTheorems.SubtractionGroupsLeft | src/main/java/org/example/ExpressionEvaluator.java:67-71 | `a-b-c` evaluates to (a - b) - c. |
| PrecedenceTheorems.DivisionByZeroIsDistinct | src/main/java/org/example/ExpressionEvaluator.java:106-109 | `a/0` fails with a division by zero, not an invalid expression. |
| PrecedenceTheorems.SignAfterOperator | src/main/java/org/example/ExpressionEvaluator.java:45-52 | `a*-b` evaluates to -(a × b). |
| PrecedenceTheorems.EmptyIsInvalid | src/main/java/org/example/ExpressionEvaluator.java:81 | The empty expression has nothing to pop and is invalid. |
| PrecedenceTheorems.DoubleMinusIsInvalid | src/main/java/org/example/ExpressionEvaluator.java:45-60 | "--5" reads a bare "-" as a literal and is invalid. |
| SumOfProducts.LeadingProduct | src/main/java/org/example/ExpressionEvaluator.java:20-23 | The factors of a term are consumed up to the next additive operator, or to the end. |
| SumOfProducts.ProductsLeftToRight | src/main/java/org/example/ExpressionEvaluator.java:67-70 | With only `*` and `/`, the conventional value applies the operators from left to right. |
| SumOfProducts.SumsLeftToRight | src/main/java/org/example/ExpressionEvaluator.java:67-70 | With only `+` and `-`, the conventional value applies the operators from left to right. |
| SumOfProducts.FoldIsConventional | src/main/java/org/example/ExpressionEvaluator.java:67-79 | Reading in one pass, closing a term at each additive operator, gives the conventional value. |
| SumOfProducts.NextTracks | src/main/java/org/example/ExpressionEvaluator.java:65-73 | From a state with no pending operator, one, or an additive one under a multiplicative one (one value more than operators), one more operator and literal leave such a state standing for the one-pass reading extended by them, or a division by zero where that reading has already failed. |
| SumOfProducts.FinishShaped | src/main/java/org/example/ExpressionEvaluator.java:76-81 | Finishing such a state gives the value of the reading it stands for. |
| SumOfProducts.ResumeTracks | src/main/java/org/example/ExpressionEvaluator.java:35-81 | From matching states, the machine over the remaining tokens gives the one-pass value of the remaining operations. |
| SumOfProducts.MachineIsConventional | src/main/java/org/example/ExpressionEvaluator.java:30-82 | The machine over a literal and any number of operators and literals computes the conventional value. |
| SumOfProducts.NumeralReads | src/main/java/org/example/ExpressionEvaluator.java:60 | An unsigned numeral is not empty and reads as a decimal. |
| SumOfProducts.TokensOfChain | src/main/java/org/example/ExpressionEvaluator.java:44-73 | Literals joined by operators scan as alternating number and operator tokens, in order. |
| SumOfProducts.EvaluationIsConventional | src/main/java/org/example/ExpressionEvaluator.java:30-82 | Every text of unsigned literals joined by operators can be scanned, and evaluates to its conventional value: `+ -` from left to right over terms whose `* /` apply from left to right, failures included. |
| Decimals.Add | src/main/java/org/example/ExpressionEvaluator.java:98 | The exact sum, at the larger scale, has the sum of the values. |
| Decimals.Subtract | src/main/java/org/example/ExpressionEvaluator.java:101 | The exact difference has the difference of the values. |
| Decimals.Multiply | src/main/java/org/example/ExpressionEvaluator.java:104 | The exact product has the product of the values. |
| Decimals.Round | src/main/java/org/example/ExpressionEvaluator.java:16 | A value of at most 34 digits is kept as it is. A longer one drops its surplus digits into the scale, keeps its sign, and has 34 digits (or 10^34 after a carry) rounded half-up. |
| Decimals.Divide | src/main/java/org/example/ExpressionEvaluator.java:110 | A zero dividend gives zero. Otherwise the result is `RoundedQuotient`: the sign is the product of the signs. The exact quotient has `precision + dropped` digits before the point, and rounding drops the last `dropped` of them. The magnitude is that quotient rounded half-up at that place, with 34 digits (or 10^34 after a carry). |
| Decimals.RoundedQuotientUnique | src/main/java/org/example/ExpressionEvaluator.java:110 | At most one number is the quotient rounded that way, so the contract of `Divide` fixes its result. |
| Decimals.DivideDetermined | src/main/java/org/example/ExpressionEvaluator.java:110 | Any number that is the rounded quotient of a non-zero dividend is the result of `Divide`. |
| Decimals.StickyRounding | src/main/java/org/example/ExpressionEvaluator.java:110 | Rounding the truncated quotient at an even power of ten agrees with rounding the exact one. |
| Decimals.Negate | src/main/java/org/example/Calculator.java:151 | Negation is exact. |
| Decimals.DivideByHundred | src/main/java/org/example/Calculator.java:195 | Dividing by 100 is exact: the value divided by 100. |
| Numerals.ParseUnsigned | src/main/java/org/example/ExpressionEvaluator.java:60 | An unsigned numeral gives a non-negative value at a non-negative scale. |
| Numerals.ParseDecimal | src/main/java/org/example/Calculator.java:150 | A leading minus gives a value of at most zero, and no minus gives a value of at least zero. |
| Numerals.ParseAccepts | src/main/java/org/example/Calculator.java:149-159 | `new BigDecimal(String)` accepts a text if and only if it is an optional sign, then digits with at most one point and at least one digit. |
| Numerals.SignedParse | src/main/java/org/example/ExpressionEvaluator.java:49-60 | A leading minus negates what the rest reads as. |
| Numerals.NatDigits | src/main/java/org/example/Calculator.java:71 | The digits of a number, without leading zeros, spell the number. |
| Numerals.StripTrailingZeros | src/main/java/org/example/Calculator.java:71 | The value is kept, with no trailing zero in the unscaled value, and zero becomes 0 at scale 0. |
| Numerals.PlainMagnitude | src/main/java/org/example/Calculator.java:71 | `toPlainString` of a magnitude is non-empty and starts with a digit. |
| Numerals.PlainRoundTrip | src/main/java/org/example/Calculator.java:71 | `toPlainString` reads back as the same value. |
| Numerals.CanonicalRoundTrip | src/main/java/org/example/Calculator.java:71 | Canonical text reads back as the same value. |
| Numerals.CanonicalShape | src/main/java/org/example/Calculator.java:71 | Canonical text is an optional minus and digits, with no exponent, no trailing point, no leading zero (except a single 0 before the point), no trailing fractional zero and no "-0". It starts with a minus if and only if the value is negative, and is "0" if and only if the value is zero. |
| Numerals.CanonicalUnique | src/main/java/org/example/Calculator.java:71 | A text of the canonical form is the canonical text of a number if and only if it reads back as that number's value: the form and the value together determine the text. |
| Numerals.CanonicalFixedPoint | src/main/java/org/example/Calculator.java:71 | Every text of the canonical form reads as a number whose `stripTrailingZeros().toPlainString()` is that text again. |
| Numerals.StrippedUnique | src/main/java/org/example/Calculator.java:71 | Two numbers with no trailing zero in the unscaled value (and zero at scale 0) that have the same value are the same representation, so `stripTrailingZeros` depends only on the value. |
| Numerals.CanonicalNegate | src/main/java/org/example/Calculator.java:71 | The canonical text of a negated positive number is a minus followed by the canonical text of the number. |
| Numerals.IndexOfDotSpec | src/main/java/org/example/DisplayFormatter.java:18 | The split point is the first point, or the end. |
| DisplayFormatter.SplitAtPoint | src/main/java/org/example/DisplayFormatter.java:18 | `split("\\.", 2)` gives one part, the whole text, when there is no point. Otherwise it gives the text before the first point and the text after it. |
| DisplayFormatter.Format | src/main/java/org/example/DisplayFormatter.java:12-38 | "", "0", "Error" and "Undefined" come back unchanged. Any other text becomes the sign, the grouped integer part, and the point and fraction. |
| DisplayFormatter.GroupDigits | src/main/java/org/example/DisplayFormatter.java:26-32 | The loop that puts a space before digit i when i > 0 and (len - i) % 3 == 0 builds `Grouped`. |
| DisplayFormatter.SpacedIsGrouped | src/main/java/org/example/DisplayFormatter.java:26-32 | The positional rule and the "last three, then the rest" grouping agree. |
| DisplayFormatter.GroupedLength | src/main/java/org/example/DisplayFormatter.java:26-32 | Grouping n > 0 digits adds (n - 1) / 3 spaces. |
| DisplayFormatter.GroupedSpaces | src/main/java/org/example/DisplayFormatter.java:27-32 | In the grouping, a character is a space exactly when it is not first and its distance from the end is a multiple of four. So every group after the first has three digits, and the first has one to three. |
| DisplayFormatter.FormatKeepsSignAndFraction | src/main/java/org/example/DisplayFormatter.java:18-35 | Everything from the first point on is copied unchanged to the end, and a leading minus stays in front. |
| DisplayFormatter.UnformatKeepsOthers | src/main/java/org/example/DisplayFormatter.java:43-45 | `unformat` keeps every character but the space, as often as it occurred. |
| DisplayFormatter.UnformatRemovesSpaces | src/main/java/org/example/DisplayFormatter.java:43-45 | No space is left after `unformat`. |
| DisplayFormatter.UnformatGrouped | src/main/java/org/example/DisplayFormatter.java:43-45 | `unformat` undoes the grouping of space-free text. |
| DisplayFormatter.FormatRoundTrip | src/main/java/org/example/DisplayFormatter.java:43-45 | `unformat(format(s)) == s` for every `s` without spaces. |

## Left out

- `CalculatorView.java` (the Swing window, buttons and the `÷ × −` key mapping) and `Main.java` (the launcher) are not part of this model. They are UI and threading only.
- `null` arguments are not modelled: Dafny strings are never null. The model covers `format`'s other verbatim cases.
- Calculator.Calculator.Input: takes "." or a string of ASCII digits, the only values the keypad sends. Other strings would be appended unchanged by the Java code, but would break the buffer invariant.
- Calculator.Calculator.Operator: takes the operator as one character. The Java method takes a `String` and uses its first character when overwriting, but appends the whole string otherwise.
- ExpressionEvaluator.Evaluate: requires every character to be whitespace, a digit, a point or an operator. On any other character, the Java loop never advances and does not terminate. `BufferIsScannable` proves that every buffer `calculate` hands over meets this.
- `Character.isDigit` also accepts non-ASCII digits, and `new BigDecimal(String)` also accepts exponents ("1E5"). Neither can reach the parser from the calculator's buffer, and the model accepts only ASCII digits without an exponent.
- Decimals.Round and Decimals.Divide: after a rounding carry, the model keeps an unscaled 10^34 (35 digits) where `BigDecimal` renormalises to 10^33 at one scale less. The value is the same.
- Decimals.Divide: the model keeps the full 34-digit representation, where `BigDecimal` strips trailing zeros down to the preferred scale. The representation differs, but the value, and so the canonical text, is the same.
- SumOfProducts.EvaluationIsConventional: covers texts of unsigned literals joined by operators, without whitespace. A signed literal after an operator is covered only by the worked example `SignAfterOperator`, and a leading minus only by `DoubleMinusIsInvalid`.
- `BigDecimal` scales are 32-bit in Java, and an overflow there would throw. The model's scales are unbounded integers.
- Differences between the code and its description, where the model follows the code:
  - there is no cap of ten fractional digits on results (the code only strips trailing zeros);
  - `negate` is not a toggle (`NegateIsNotAToggle`);
  - `backspace`, `negate` and `percentage` leave `lastWasResult` as it is;
  - "no two operators in a row" is not an invariant of the buffer (`negate` turns "5+3" into "5+-3").
  - `evaluate` does not reject an expression that leaves several values on the stack: it
    returns the top one (`ExpressionEvaluator.java:81`), so "5 5" gives 5, and `Conclude`
    does the same.
- The `numStr.isEmpty()` test in `negate` and `percentage` can never succeed, because `NumberStart` is always before the last character. `ReplaceLastNumber` keeps the test, dead as it is.
