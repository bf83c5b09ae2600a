/** The calculator's expression buffer: a character buffer edited one key at a time, and a flag
    that records whether the buffer holds the result of the last `calculate`. Each edit is
    specified by a function on the buffer text; the class applies it in place. */
module Calculator {
  import opened Chars
  import opened Outcomes
  import opened Decimals
  import opened Numerals
  import opened ExpressionEvaluator

  /** The characters the buffer is ever made of: digits, points and the four operators. */
  predicate BufferChar(c: char) {
    IsDigit(c) || c == '.' || IsOperator(c)
  }

  predicate InAlphabet(s: string) {
    forall i :: 0 <= i < |s| ==> BufferChar(s[i])
  }

  /** Between any two points of the buffer there is an operator: every number holds at most one
      decimal point. */
  predicate DotsSeparated(s: string) {
    forall i, j :: 0 <= i < j < |s| && s[i] == '.' && s[j] == '.' ==>
      exists k :: i < k < j && IsOperator(s[k])
  }

  /** At most one decimal point in the whole text. */
  predicate AtMostOneDot(t: string) {
    forall i, j :: 0 <= i < j < |t| && t[i] == '.' ==> t[j] != '.'
  }

  // ---------------------------------------------------------------------------------------------
  // Where the current number begins

  /** Where the operator-free tail of `s` begins: just after its last operator, or at 0. */
  function TailStart(s: string): (t: nat)
    ensures t <= |s|
    ensures t == 0 || IsOperator(s[t - 1])
    ensures forall k :: t <= k < |s| ==> !IsOperator(s[k])
  {
    if s == [] || IsOperator(s[|s| - 1]) then |s| else TailStart(s[..|s| - 1])
  }

  /** The three properties of TailStart pin it down. */
  lemma TailStartUnique(s: string, t: nat)
    requires t <= |s| && (t == 0 || IsOperator(s[t - 1]))
    requires forall k :: t <= k < |s| ==> !IsOperator(s[k])
    ensures TailStart(s) == t
  {
  }

  /** Where `negate` and `percentage` find the last number: scanning back from the last character
      (which always belongs to it, even when it is an operator) to just after the nearest operator
      before it, or to the start. */
  function NumberStart(s: string): (start: nat)
    requires |s| > 0
    ensures start < |s|
    ensures start == 0 || IsOperator(s[start - 1])
    ensures forall k :: start <= k < |s| - 1 ==> !IsOperator(s[k])
  {
    TailStart(s[..|s| - 1])
  }

  /** The backward scan of `negate` and `percentage`: it stops at the start or when the character
      before the candidate start is an operator, so the number it finds is never empty. */
  method FindNumberStart(s: string) returns (start: nat)
    requires |s| > 0
    ensures start == NumberStart(s)
    ensures start < |s|
  {
    var end := |s|;
    start := end - 1;
    while start > 0
      invariant 0 <= start <= end - 1
      invariant forall k :: start <= k < end - 1 ==> !IsOperator(s[k])
    {
      var c := s[start - 1];
      if IsOperator(c) {
        break;
      }
      start := start - 1;
    }
    TailStartUnique(s[..end - 1], start);
  }

  // ---------------------------------------------------------------------------------------------
  // The edits, as functions of the buffer text

  /** `addDecimalPoint`: a "0" first when no number is under way (empty buffer or a trailing
      operator), then a point, unless the current number already has one. */
  function WithPoint(s: string): (r: string)
    ensures '.' in s[TailStart(s)..] ==> r == s
    ensures '.' !in s[TailStart(s)..] ==>
      r == s + (if s == [] || IsOperator(s[|s| - 1]) then "0." else ".")
  {
    var base := if s == [] || IsOperator(s[|s| - 1]) then s + "0" else s;
    TailOfAppended(s, "0");
    if '.' in base[TailStart(base)..] then base else base + "."
  }

  /** Appending operator-free text extends the tail, and starting a fresh number after an operator
      (or in an empty buffer) makes it the whole tail. */
  lemma {:induction false} TailOfAppended(s: string, t: string)
    requires forall k :: 0 <= k < |t| ==> !IsOperator(t[k])
    ensures s != [] && !IsOperator(s[|s| - 1]) ==> TailStart(s + t) == TailStart(s)
    ensures s == [] || IsOperator(s[|s| - 1]) ==> TailStart(s + t) == |s| && TailStart(s) == |s|
    ensures (s + t)[TailStart(s)..] == s[TailStart(s)..] + t
  {
    var u := s + t;
    if s == [] || IsOperator(s[|s| - 1]) {
      TailStartUnique(s, |s|);
      TailStartUnique(u, |s|);
    } else {
      var p := TailStart(s);
      assert forall k :: p <= k < |u| ==> !IsOperator(u[k]) by {
        forall k | p <= k < |u| ensures !IsOperator(u[k]) {
          if k < |s| {
            assert u[k] == s[k];
          } else {
            assert u[k] == t[k - |s|];
          }
        }
      }
      TailStartUnique(u, p);
    }
  }

  /** `operator`: on an empty buffer only a minus is taken; otherwise a trailing operator or point
      is overwritten, and anything else gets the operator appended. */
  function WithOperator(s: string, op: char): (r: string)
    requires IsOperator(op)
    ensures s == [] ==> r == (if op == '-' then "-" else "")
    ensures s != [] ==>
      |r| == (if IsOperatorOrDot(s[|s| - 1]) then |s| else |s| + 1) &&
      r[..|s| - 1] == s[..|s| - 1] && r[|r| - 1] == op
    ensures s != [] && !IsOperatorOrDot(s[|s| - 1]) ==> r[..|s|] == s
  {
    if s == [] then (if op == '-' then [op] else [])
    else if IsOperatorOrDot(s[|s| - 1]) then s[|s| - 1 := op]
    else s + [op]
  }

  /** `backspace`: the last character goes, and an empty buffer stays empty. */
  function WithoutLast(s: string): (r: string)
    ensures s == [] ==> r == []
    ensures s != [] ==> r + [s[|s| - 1]] == s
  {
    if s == [] then [] else s[..|s| - 1]
  }

  /** The two edits that rewrite the last number: `negate` and `percentage`. */
  datatype NumberEdit = Negation | Percent

  /** What an edit does to a number: negation, or BigDecimal.divide by 100, which is exact. */
  function Edited(e: NumberEdit, d: Decimal): (r: Decimal)
    ensures Value(r) == if e == Negation then -Value(d) else Value(d) / 100.0
  {
    match e
    case Negation => Decimals.Negate(d)
    case Percent => DivideByHundred(d)
  }

  /** `negate` and `percentage` on a non-empty buffer: the text from NumberStart on, unless it is a
      lone point or does not read as a decimal, is replaced by the canonical text of the edited
      number; the text before it is kept. */
  function WithEditedNumber(s: string, e: NumberEdit): (r: string)
    requires |s| > 0
    ensures var start := NumberStart(s);
      |r| >= start && r[..start] == s[..start] &&
      (ParseDecimal(s[start..]).None? ==> r == s) &&
      (ParseDecimal(s[start..]).Some? ==>
        CanonicalForm(r[start..]) && ParseDecimal(r[start..]).Some? &&
        Value(ParseDecimal(r[start..]).value) ==
          (if e == Negation then -1.0 else 0.01) * Value(ParseDecimal(s[start..]).value) &&
        (r[start] == '-' <==> Value(ParseDecimal(r[start..]).value) < 0.0))
  {
    var start := NumberStart(s);
    var number := s[start..];
    if number == "." then s
    else match ParseDecimal(number)
      case None => s
      case Some(d) =>
        var text := Canonical(Edited(e, d));
        var r := s[..start] + text;
        assert r[start..] == text;
        CanonicalShape(Edited(e, d));
        CanonicalRoundTrip(Edited(e, d));
        r
  }

  /** The evaluator is handed the buffer without one trailing operator. */
  function Trimmed(s: string): (r: string)
    ensures s != [] && IsOperator(s[|s| - 1]) ==> r + [s[|s| - 1]] == s
    ensures s == [] || !IsOperator(s[|s| - 1]) ==> r == s
  {
    if s != [] && IsOperator(s[|s| - 1]) then s[..|s| - 1] else s
  }

  // ---------------------------------------------------------------------------------------------
  // Properties of the edits

  /** After a result, a point starts a fresh number: the buffer becomes "0.". */
  lemma PointOnEmpty()
    ensures WithPoint([]) == "0."
  {
    TailStartUnique([], 0);
  }

  /** A second point in the same number changes nothing. */
  lemma {:induction false} PointIdempotent(s: string)
    ensures WithPoint(WithPoint(s)) == WithPoint(s)
  {
    var r := WithPoint(s);
    if '.' !in s[TailStart(s)..] {
      var added := if s == [] || IsOperator(s[|s| - 1]) then "0." else ".";
      TailOfAppended(s, added);
      var tail := r[TailStart(r)..];
      assert tail[|tail| - 1] == '.';
    }
  }

  /** A point is added only where the current number has none, so every number keeps at most one. */
  lemma {:induction false} PointKeepsDotsSeparated(s: string)
    requires DotsSeparated(s)
    ensures DotsSeparated(WithPoint(s))
  {
    if '.' !in s[TailStart(s)..] {
      var added := if s == [] || IsOperator(s[|s| - 1]) then "0." else ".";
      var r := s + added;
      var p := TailStart(s);
      forall i, j | 0 <= i < j < |r| && r[i] == '.' && r[j] == '.'
        ensures exists k :: i < k < j && IsOperator(r[k])
      {
        if j < |s| {
          var k :| i < k < j && IsOperator(s[k]);
          assert r[k] == s[k];
        } else {
          assert r[i] == s[i];
          assert s[i] !in s[p..] ==> i < p;
          assert IsOperator(r[p - 1]);
        }
      }
    }
  }

  /** Appending text without a point keeps every number's points apart. */
  lemma {:induction false} AppendKeepsDotsSeparated(s: string, t: string)
    requires DotsSeparated(s) && '.' !in t
    ensures DotsSeparated(s + t)
  {
    var r := s + t;
    assert forall m :: |s| <= m < |r| ==> r[m] != '.' by {
      forall m | |s| <= m < |r| ensures r[m] != '.' {
        assert r[m] == t[m - |s|];
      }
    }
    forall i, j | 0 <= i < j < |r| && r[i] == '.' && r[j] == '.'
      ensures exists k :: i < k < j && IsOperator(r[k])
    {
      assert j < |s|;
      var k :| i < k < j && IsOperator(s[k]);
      assert r[k] == s[k];
    }
  }

  /** Keeping a prefix keeps every number's points apart. */
  lemma {:induction false} PrefixKeepsDotsSeparated(s: string, n: nat)
    requires DotsSeparated(s) && n <= |s|
    ensures DotsSeparated(s[..n])
  {
    var r := s[..n];
    forall i, j | 0 <= i < j < |r| && r[i] == '.' && r[j] == '.'
      ensures exists k :: i < k < j && IsOperator(r[k])
    {
      var k :| i < k < j && IsOperator(s[k]);
      assert r[k] == s[k];
    }
  }

  /** An operator never adds a point, so the numbers keep their points apart. */
  lemma {:induction false} OperatorKeepsDotsSeparated(s: string, op: char)
    requires DotsSeparated(s) && IsOperator(op)
    ensures DotsSeparated(WithOperator(s, op))
  {
    if s != [] {
      PrefixKeepsDotsSeparated(s, |s| - 1);
      if IsOperatorOrDot(s[|s| - 1]) {
        assert WithOperator(s, op) == s[..|s| - 1] + [op];
        AppendKeepsDotsSeparated(s[..|s| - 1], [op]);
      } else {
        AppendKeepsDotsSeparated(s, [op]);
      }
    }
  }

  /** Replacing the text after an operator (or the whole buffer) with text of at most one point
      keeps every number's points apart. */
  lemma {:induction false} ReplaceTailKeepsDotsSeparated(s: string, start: nat, t: string)
    requires DotsSeparated(s) && start <= |s| && (start == 0 || IsOperator(s[start - 1]))
    requires AtMostOneDot(t)
    ensures DotsSeparated(s[..start] + t)
  {
    var r := s[..start] + t;
    forall i, j | 0 <= i < j < |r| && r[i] == '.' && r[j] == '.'
      ensures exists k :: i < k < j && IsOperator(r[k])
    {
      if j < start {
        var k :| i < k < j && IsOperator(s[k]);
        assert r[k] == s[k];
      } else {
        assert r[j] == t[j - start];
        assert i < start;
        assert r[i] == s[i];
        assert r[start - 1] == s[start - 1];
      }
    }
  }

  /** Replacing the text after an operator by a number's canonical text keeps points apart. */
  lemma {:induction false} CanonicalTailKeepsDotsSeparated(s: string, start: nat, d: Decimal)
    requires DotsSeparated(s) && start <= |s| && (start == 0 || IsOperator(s[start - 1]))
    ensures DotsSeparated(s[..start] + Canonical(d))
  {
    CanonicalIsBufferText(d);
    ReplaceTailKeepsDotsSeparated(s, start, Canonical(d));
  }

  /** Canonical number text is made of buffer characters and has at most one point. */
  lemma {:induction false} CanonicalIsBufferText(d: Decimal)
    ensures InAlphabet(Canonical(d)) && AtMostOneDot(Canonical(d)) && DotsSeparated(Canonical(d))
  {
    CanonicalShape(d);
    CanonicalFormIsBufferText(Canonical(d));
  }

  lemma {:induction false} CanonicalFormIsBufferText(t: string)
    requires CanonicalForm(t)
    ensures InAlphabet(t) && AtMostOneDot(t) && DotsSeparated(t)
  {
    var off := if t[0] == '-' then 1 else 0;
    var m := t[off..];
    assert IsUnsignedNumeral(m);
    forall i | 0 <= i < |t| ensures BufferChar(t[i]) {
      if i >= off {
        assert t[i] == m[i - off];
      }
    }
    forall i, j | 0 <= i < j < |t| && t[i] == '.' ensures t[j] != '.' {
      assert i >= off;
      assert t[i] == m[i - off] && t[j] == m[j - off];
    }
  }

  /** Editing the last number keeps every number's points apart. */
  lemma {:induction false} EditKeepsDotsSeparated(s: string, e: NumberEdit)
    requires |s| > 0 && DotsSeparated(s)
    ensures DotsSeparated(WithEditedNumber(s, e))
  {
    var start := NumberStart(s);
    var number := s[start..];
    var parsed := ParseDecimal(number);
    if number != "." && parsed.Some? {
      var d := Edited(e, parsed.value);
      CanonicalTailKeepsDotsSeparated(s, start, d);
      assert WithEditedNumber(s, e) == s[..start] + Canonical(d);
    } else {
      assert WithEditedNumber(s, e) == s;
    }
  }

  /** Appending buffer characters keeps the buffer to its alphabet. */
  lemma {:induction false} AppendKeepsAlphabet(s: string, t: string)
    requires InAlphabet(s) && InAlphabet(t)
    ensures InAlphabet(s + t)
  {
    var r := s + t;
    forall i | 0 <= i < |r| ensures BufferChar(r[i]) {
      if i >= |s| {
        assert r[i] == t[i - |s|];
      } else {
        assert r[i] == s[i];
      }
    }
  }

  /** Adding a point, or an operator, keeps the buffer to its alphabet. */
  lemma {:induction false} PointAndOperatorKeepAlphabet(s: string, op: char)
    requires InAlphabet(s) && IsOperator(op)
    ensures InAlphabet(WithPoint(s)) && InAlphabet(WithOperator(s, op))
  {
    AppendKeepsAlphabet(s, "0.");
    AppendKeepsAlphabet(s, ".");
    AppendKeepsAlphabet(s, [op]);
    if s != [] {
      var r := WithOperator(s, op);
      forall i | 0 <= i < |r| ensures BufferChar(r[i]) {
        if i < |s| - 1 {
          assert r[i] == r[..|s| - 1][i] == s[i];
        }
      }
    }
  }

  /** Editing the last number keeps the buffer to its alphabet. */
  lemma {:induction false} EditKeepsAlphabet(s: string, e: NumberEdit)
    requires |s| > 0 && InAlphabet(s)
    ensures InAlphabet(WithEditedNumber(s, e))
  {
    var start := NumberStart(s);
    var number := s[start..];
    if number != "." && ParseDecimal(number).Some? {
      var d := Edited(e, ParseDecimal(number).value);
      CanonicalIsBufferText(d);
      AppendKeepsAlphabet(s[..start], Canonical(d));
    }
  }

  /** A number that ends in an operator does not read as a decimal, so `negate` and `percentage`
      leave a buffer that ends in an operator as it is. */
  lemma {:induction false} EditAfterOperator(s: string, e: NumberEdit)
    requires |s| > 0 && IsOperator(s[|s| - 1])
    ensures WithEditedNumber(s, e) == s
  {
    var number := s[NumberStart(s)..];
    var u := Unsigned(number);
    if |u| > 0 {
      assert u[|u| - 1] == s[|s| - 1];
      assert !IsDigit(u[|u| - 1]) && u[|u| - 1] != '.';
    }
    assert !IsUnsignedNumeral(u);
    ParseAccepts(number);
  }

  /** `negate` is not a toggle: on "-5" the scan stops after the leading minus, which it takes for
      an operator, and the buffer becomes "--5". */
  lemma NegateIsNotAToggle(s: string)
    requires s == "-5"
    ensures WithEditedNumber(s, Negation) == "-" + s
  {
    TailStartUnique(s[..1], 1);
    assert NumberStart(s) == 1;
    var number := s[1..];
    assert number == "5";
    WholeRoundTrip(number);
    assert DigitsValue(number) == 5;
    assert ParseDecimal(number) == Some(Decimal(5, 0));
    var n := Decimals.Negate(Decimal(5, 0));
    assert StripTrailingZeros(n) == n;
    assert NatDigits(5) == "5";
    assert Canonical(n) == "-5";
  }

  /** A point with no operator after it lies in the tail. */
  lemma {:induction false} PointInTail(b: string, i: nat)
    requires i < |b| && b[i] == '.'
    requires forall k :: i < k < |b| ==> !IsOperator(b[k])
    ensures '.' in b[TailStart(b)..]
  {
    assert TailStart(b) <= i;
    assert b[TailStart(b)..][i - TailStart(b)] == '.';
  }

  /** WithPoint decides on the buffer after the "0" a fresh number needs. */
  lemma WithPointOfBase(s: string, b: string)
    requires b == if s == [] || IsOperator(s[|s| - 1]) then s + "0" else s
    ensures WithPoint(s) == if '.' in b[TailStart(b)..] then b else b + "."
  {
  }

  /** Conversely, when the text after an operator (or the whole text) holds neither an operator nor
      a point, the current number has no point. */
  lemma {:induction false} NoPointInTail(b: string, t: nat)
    requires t <= |b| && (t == 0 || IsOperator(b[t - 1]))
    requires forall k :: t <= k < |b| ==> !IsOperator(b[k]) && b[k] != '.'
    ensures '.' !in b[TailStart(b)..]
  {
    TailStartUnique(b, t);
    forall j | 0 <= j < |b| - t
      ensures b[t..][j] != '.'
    {
      assert b[t..][j] == b[t + j];
    }
  }

  /** The evaluator accepts every buffer: it is scannable. */
  lemma {:induction false} BufferIsScannable(s: string)
    requires InAlphabet(s)
    ensures Scannable(Trimmed(s))
  {
    var r := Trimmed(s);
    forall i | 0 <= i < |r| ensures BufferChar(r[i]) {
      assert r[i] == s[i];
    }
  }

  // ---------------------------------------------------------------------------------------------
  // The calculator

  class Calculator {
    /** The expression as typed so far, or the last result. */
    var expression: string
    /** Set by a successful `calculate`; the next digit or point then starts a fresh expression. */
    var lastWasResult: bool

    /** The buffer holds only digits, points and operators, and no number has two points. */
    ghost predicate Valid()
      reads this
    {
      InAlphabet(expression) && DotsSeparated(expression)
    }

    constructor ()
      ensures Valid() && expression == [] && !lastWasResult
    {
      expression := [];
      lastWasResult := false;
    }

    /** A digit string is appended, a "." goes through `AddDecimalPoint`; after a result the buffer
        is first cleared. */
    method Input(value: string) returns (display: string)
      requires Valid()
      requires value == "." || AllDigits(value)
      modifies this
      ensures Valid() && !lastWasResult && display == expression
      ensures var s := if old(lastWasResult) then [] else old(expression);
        expression == if value == "." then WithPoint(s) else s + value
    {
      if lastWasResult {
        Clear();
        lastWasResult := false;
      }
      if value == "." {
        PointKeepsDotsSeparated(expression);
        PointAndOperatorKeepAlphabet(expression, '+');
        AddDecimalPoint();
      } else {
        AppendKeepsDotsSeparated(expression, value);
        expression := expression + value;
      }
      display := expression;
    }

    /** Appends an operator, or overwrites a trailing operator or point with it; on an empty buffer
        only a minus is taken. */
    method Operator(op: char) returns (display: string)
      requires Valid() && IsOperator(op)
      modifies this
      ensures Valid() && !lastWasResult && display == expression
      ensures expression == WithOperator(old(expression), op)
    {
      PointAndOperatorKeepAlphabet(expression, op);
      OperatorKeepsDotsSeparated(expression, op);
      lastWasResult := false;
      if |expression| == 0 {
        if op == '-' {
          expression := expression + [op];
        }
        return expression;
      }
      var lastIdx := |expression| - 1;
      var last := expression[lastIdx];
      if IsOperatorOrDot(last) {
        expression := expression[lastIdx := op];
      } else {
        expression := expression + [op];
      }
      display := expression;
    }

    /** Unless a result is showing or the buffer is empty (then nothing changes), drops one
        trailing operator and evaluates. A value becomes the canonical text in the buffer and sets
        the result flag; a division by zero shows "Undefined", any other failure "Error", and both
        clear the buffer. Either way a second call changes nothing. */
    method Calculate() returns (display: string)
      requires Valid()
      modifies this
      ensures Valid()
      ensures old(lastWasResult) || old(expression) == [] ==>
        display == expression == old(expression) && lastWasResult == old(lastWasResult)
      ensures !old(lastWasResult) && old(expression) != [] ==>
        match Evaluation(Trimmed(old(expression)))
        case Ok(v) => display == expression == Canonical(v) && lastWasResult
        case Err(DivisionByZero) => display == "Undefined" && expression == [] && !lastWasResult
        case Err(InvalidExpression) => display == "Error" && expression == [] && !lastWasResult
      ensures lastWasResult || expression == []
    {
      if lastWasResult || |expression| == 0 {
        return expression;
      }
      BufferIsScannable(expression);
      ghost var trimmed := Trimmed(expression);
      var lastIdx := |expression| - 1;
      if IsOperator(expression[lastIdx]) {
        expression := expression[..lastIdx];
      }
      assert expression == trimmed;
      var result := Evaluate(expression);
      match result
      case Ok(v) =>
        var formatted := Canonical(v);
        CanonicalIsBufferText(v);
        expression := formatted;
        lastWasResult := true;
        display := formatted;
      case Err(DivisionByZero) =>
        Clear();
        display := "Undefined";
      case Err(InvalidExpression) =>
        Clear();
        display := "Error";
    }

    /** Deletes the last character, if any; shows "0" once the buffer is empty. The result flag is
        not touched. */
    method Backspace() returns (display: string)
      requires Valid()
      modifies this`expression
      ensures Valid()
      ensures expression == WithoutLast(old(expression))
      ensures display == if expression == [] then "0" else expression
    {
      if |expression| > 0 {
        PrefixKeepsDotsSeparated(expression, |expression| - 1);
        expression := expression[..|expression| - 1];
      }
      display := if |expression| == 0 then "0" else expression;
    }

    method Clear()
      modifies this
      ensures Valid() && expression == [] && !lastWasResult
    {
      expression := [];
      lastWasResult := false;
    }

    method GetExpression() returns (s: string)
      ensures s == expression
    {
      s := expression;
    }

    method IsLastWasResult() returns (b: bool)
      ensures b == lastWasResult
    {
      b := lastWasResult;
    }

    /** Replaces the last number with its negation; shows "0" for an empty buffer. The result flag
        is not touched. */
    method Negate() returns (display: string)
      requires Valid()
      modifies this`expression
      ensures Valid()
      ensures old(expression) == [] ==> expression == [] && display == "0"
      ensures old(expression) != [] ==>
        expression == WithEditedNumber(old(expression), Negation) && display == expression
    {
      display := ReplaceLastNumber(Negation);
    }

    /** Replaces the last number with a hundredth of it; shows "0" for an empty buffer. The result
        flag is not touched. */
    method Percentage() returns (display: string)
      requires Valid()
      modifies this`expression
      ensures Valid()
      ensures old(expression) == [] ==> expression == [] && display == "0"
      ensures old(expression) != [] ==>
        expression == WithEditedNumber(old(expression), Percent) && display == expression
    {
      display := ReplaceLastNumber(Percent);
    }

    /** The body `negate` and `percentage` share: find the last number, read it, edit it and write
        its canonical text back in its place. */
    method ReplaceLastNumber(e: NumberEdit) returns (display: string)
      requires Valid()
      modifies this`expression
      ensures Valid()
      ensures old(expression) == [] ==> expression == [] && display == "0"
      ensures old(expression) != [] ==>
        expression == WithEditedNumber(old(expression), e) && display == expression
    {
      if |expression| == 0 {
        return "0";
      }
      EditKeepsAlphabet(expression, e);
      EditKeepsDotsSeparated(expression, e);
      var end := |expression|;
      var start := FindNumberStart(expression);
      var numStr := expression[start..end];
      assert numStr == expression[start..];
      if |numStr| == 0 || numStr == "." {
        return expression;
      }
      var parsed := ParseDecimal(numStr);
      if parsed.None? {
        return expression;
      }
      var edited := Edited(e, parsed.value);
      expression := expression[..start] + Canonical(edited);
      display := expression;
    }

    /** A point, with a "0" before it when no number is under way, unless the current number (the
        text after the last operator) already has one. */
    method AddDecimalPoint()
      modifies this`expression
      ensures expression == WithPoint(old(expression))
    {
      ghost var s := expression;
      if |expression| == 0 || IsOperator(expression[|expression| - 1]) {
        expression := expression + "0";
      }
      var b := expression;
      var i := |b| - 1;
      while i >= 0
        invariant -1 <= i < |b|
        invariant forall k :: i < k < |b| ==> !IsOperator(b[k]) && b[k] != '.'
      {
        var c := b[i];
        if IsOperator(c) {
          break;
        }
        if c == '.' {
          PointInTail(b, i);
          WithPointOfBase(s, b);
          return;
        }
        i := i - 1;
      }
      NoPointInTail(b, i + 1);
      WithPointOfBase(s, b);
      expression := b + ".";
    }
  }
}
