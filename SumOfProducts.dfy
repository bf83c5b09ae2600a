/** Expressions of any length. The conventional reading of `x0 op1 x1 op2 x2 ...` applies `+ -`
    from left to right to terms, each the left-to-right product of its `* /` factors; the two-stack
    machine is proved to compute exactly that, failures included, by way of a one-pass reading
    that closes each term when an additive operator comes. */
module SumOfProducts {
  import opened Chars
  import opened Outcomes
  import opened Decimals
  import opened Numerals
  import opened ExpressionEvaluator
  import opened PrecedenceTheorems

  /** An operator and the literal that follows it. */
  datatype Link = Link(op: Op, text: string)

  /** `*` and `/`, the operators that bind tighter. */
  predicate Multiplicative(op: Op) {
    Precedence(op) == 2
  }

  // ---------------------------------------------------------------------------------------------
  // The conventional reading

  /** An operator and the number it applies. */
  datatype Operation = Operation(op: Op, operand: Decimal)

  /** `left op right` once both sides have succeeded; a failure on the left comes first. */
  function Combined(op: Op, left: Result<Decimal>, right: Result<Decimal>): (r: Result<Decimal>)
    ensures left.Err? ==> r == left
    ensures left.Ok? && right.Err? ==> r == right
    ensures left.Ok? && right.Ok? ==> r == ApplyOp(op, left.value, right.value)
  {
    match left
    case Err(e) => Err(e)
    case Ok(a) => ApplyTo(a, op, right)
  }

  /** Each operation applied in turn, left to right; a failure is carried to the end. */
  function LeftFold(acc: Result<Decimal>, ops: seq<Operation>): Result<Decimal>
    decreases |ops|
  {
    if ops == [] then acc else LeftFold(ThenApply(acc, ops[0].op, ops[0].operand), ops[1..])
  }

  /** The product that `t` opens: `t` with the leading multiplicative operations applied left to
      right, and the operations after them. */
  function LeadingProduct(t: Result<Decimal>, ops: seq<Operation>): (r: (Result<Decimal>, seq<Operation>))
    ensures |r.1| <= |ops| && (r.1 == [] || !Multiplicative(r.1[0].op))
    decreases |ops|
  {
    if ops == [] || !Multiplicative(ops[0].op) then (t, ops)
    else LeadingProduct(ThenApply(t, ops[0].op, ops[0].operand), ops[1..])
  }

  /** The sum: each additive operation joins, left to right, the product that its operand opens. */
  function SumOfTerms(acc: Result<Decimal>, ops: seq<Operation>): Result<Decimal>
    requires ops == [] || !Multiplicative(ops[0].op)
    decreases |ops|
  {
    if ops == [] then acc
    else
      var term := LeadingProduct(Ok(ops[0].operand), ops[1..]);
      SumOfTerms(Combined(ops[0].op, acc, term.0), term.1)
  }

  /** The conventional value of `first ops[0] ops[1] ...`: `*` and `/` bind tighter than `+` and
      `-`, and operators that bind equally apply from left to right. */
  function Conventional(first: Decimal, ops: seq<Operation>): Result<Decimal> {
    var term := LeadingProduct(Ok(first), ops);
    SumOfTerms(term.0, term.1)
  }

  lemma {:induction false} ThenApplyIsCombined(acc: Result<Decimal>, op: Op, v: Decimal)
    ensures Combined(op, acc, Ok(v)) == ThenApply(acc, op, v)
  {
  }

  lemma {:induction false} ProductOfFactors(t: Result<Decimal>, ops: seq<Operation>)
    requires forall k :: 0 <= k < |ops| ==> Multiplicative(ops[k].op)
    ensures LeadingProduct(t, ops) == (LeftFold(t, ops), [])
    decreases |ops|
  {
    if ops != [] {
      ProductOfFactors(ThenApply(t, ops[0].op, ops[0].operand), ops[1..]);
    }
  }

  lemma {:induction false} SumOfSingleTerms(acc: Result<Decimal>, ops: seq<Operation>)
    requires forall k :: 0 <= k < |ops| ==> !Multiplicative(ops[k].op)
    ensures SumOfTerms(acc, ops) == LeftFold(acc, ops)
    decreases |ops|
  {
    if ops != [] {
      var op, v := ops[0].op, ops[0].operand;
      assert LeadingProduct(Ok(v), ops[1..]) == (Ok(v), ops[1..]);
      ThenApplyIsCombined(acc, op, v);
      SumOfSingleTerms(Combined(op, acc, Ok(v)), ops[1..]);
    }
  }

  /** With only `*` and `/`, the operations apply from left to right. */
  lemma {:induction false} ProductsLeftToRight(first: Decimal, ops: seq<Operation>)
    requires forall k :: 0 <= k < |ops| ==> Multiplicative(ops[k].op)
    ensures Conventional(first, ops) == LeftFold(Ok(first), ops)
  {
    ProductOfFactors(Ok(first), ops);
  }

  /** With only `+` and `-`, the operations apply from left to right. */
  lemma {:induction false} SumsLeftToRight(first: Decimal, ops: seq<Operation>)
    requires forall k :: 0 <= k < |ops| ==> !Multiplicative(ops[k].op)
    ensures Conventional(first, ops) == LeftFold(Ok(first), ops)
  {
    SumOfSingleTerms(Ok(first), ops);
  }

  // ---------------------------------------------------------------------------------------------
  // The same value, read in one pass

  /** What has been read of an expression: the product still open, after the sum of the earlier
      terms and the additive operator that joins it to them, when there are any. */
  datatype Partial =
    | Product(term: Result<Decimal>)
    | Sum(done: Result<Decimal>, join: Op, term: Result<Decimal>)

  /** The value of what has been read, once the open product is closed. */
  function Total(p: Partial): Result<Decimal> {
    match p
    case Product(t) => t
    case Sum(d, op, t) => Combined(op, d, t)
  }

  /** One more operator and operand: a multiplicative operator extends the open product; an
      additive one closes it into the sum and opens a new product. */
  function Extend(p: Partial, op: Op, v: Decimal): Partial {
    if Multiplicative(op) then
      match p
      case Product(t) => Product(ThenApply(t, op, v))
      case Sum(d, j, t) => Sum(d, j, ThenApply(t, op, v))
    else Sum(Total(p), op, Ok(v))
  }

  function Fold(p: Partial, ops: seq<Operation>): Partial
    decreases |ops|
  {
    if ops == [] then p else Fold(Extend(p, ops[0].op, ops[0].operand), ops[1..])
  }

  lemma {:induction false} FoldSum(d: Result<Decimal>, j: Op, t: Result<Decimal>, ops: seq<Operation>)
    ensures Total(Fold(Sum(d, j, t), ops)) ==
      SumOfTerms(Combined(j, d, LeadingProduct(t, ops).0), LeadingProduct(t, ops).1)
    decreases |ops|
  {
    if ops != [] {
      var op, v := ops[0].op, ops[0].operand;
      if Multiplicative(op) {
        FoldSum(d, j, ThenApply(t, op, v), ops[1..]);
      } else {
        FoldSum(Combined(j, d, t), op, Ok(v), ops[1..]);
      }
    }
  }

  lemma {:induction false} FoldProduct(t: Result<Decimal>, ops: seq<Operation>)
    ensures Total(Fold(Product(t), ops)) == SumOfTerms(LeadingProduct(t, ops).0, LeadingProduct(t, ops).1)
    decreases |ops|
  {
    if ops != [] {
      var op, v := ops[0].op, ops[0].operand;
      if Multiplicative(op) {
        FoldProduct(ThenApply(t, op, v), ops[1..]);
      } else {
        FoldSum(t, op, Ok(v), ops[1..]);
      }
    }
  }

  /** Reading in one pass, closing each product when an additive operator comes, gives the
      conventional value. */
  lemma {:induction false} FoldIsConventional(first: Decimal, ops: seq<Operation>)
    ensures Total(Fold(Product(Ok(first)), ops)) == Conventional(first, ops)
  {
    FoldProduct(Ok(first), ops);
  }

  // ---------------------------------------------------------------------------------------------
  // Text and tokens

  /** Every literal of the links reads as a decimal. */
  predicate Readable(links: seq<Link>) {
    forall k :: 0 <= k < |links| ==> ParseDecimal(links[k].text).Some?
  }

  /** The operations the links stand for. */
  function Operations(links: seq<Link>): (ops: seq<Operation>)
    requires Readable(links)
    ensures |ops| == |links|
    decreases |links|
  {
    if links == [] then []
    else [Operation(links[0].op, ParseDecimal(links[0].text).value)] + Operations(links[1..])
  }

  /** The tokens of the links. */
  function LinkTokens(links: seq<Link>): seq<Token>
    decreases |links|
  {
    if links == [] then [] else [Operator(links[0].op)] + ([Number(links[0].text)] + LinkTokens(links[1..]))
  }

  /** The characters of the links. */
  function LinkText(links: seq<Link>): string
    decreases |links|
  {
    if links == [] then [] else [Symbol(links[0].op)] + (links[0].text + LinkText(links[1..]))
  }

  // ---------------------------------------------------------------------------------------------
  // The machine after each literal

  /** The stacks after a literal: one more value than operators, and at most an additive operator
      with a multiplicative one above it. */
  predicate Shaped(m: Machine) {
    (|m.operators| == 0 && |m.values| == 1) ||
    (|m.operators| == 1 && |m.values| == 2) ||
    (|m.operators| == 2 && |m.values| == 3 &&
     !Multiplicative(m.operators[0]) && Multiplicative(m.operators[1]))
  }

  /** What the stacks stand for in terms of the one-pass reading. */
  function Abstract(m: Machine): Partial
    requires Shaped(m)
  {
    var vs, ops := m.values, m.operators;
    if |ops| == 0 then Product(Ok(vs[0]))
    else if |ops| == 1 then
      if Multiplicative(ops[0]) then Product(ApplyOp(ops[0], vs[0], vs[1]))
      else Sum(Ok(vs[0]), ops[0], Ok(vs[1]))
    else Sum(Ok(vs[0]), ops[0], ApplyOp(ops[1], vs[1], vs[2]))
  }

  /** Some part of what has been read has already failed. */
  predicate Failed(p: Partial) {
    p.term.Err? || (p.Sum? && p.done.Err?)
  }

  /** Every failure in what has been read is a division by zero. */
  predicate OnlyDivisionByZero(p: Partial) {
    (p.term.Err? ==> p.term.error == DivisionByZero) &&
    (p.Sum? && p.done.Err? ==> p.done.error == DivisionByZero)
  }

  /** The machine's state matches the one-pass reading's: a shaped machine that stands for `p`, or a
      division by zero where `p` has already failed. */
  predicate Tracks(r: Result<Machine>, p: Partial) {
    match r
    case Ok(m) => Shaped(m) && p == Abstract(m)
    case Err(e) => e == DivisionByZero && Failed(p) && OnlyDivisionByZero(p)
  }

  /** An operator followed by a literal that reads as `v`. */
  function Next(m: Machine, op: Op, v: Decimal): Result<Machine> {
    match Reduce(m, Precedence(op))
    case Err(e) => Err(e)
    case Ok(m') => Ok(Machine(m'.values + [v], m'.operators + [op]))
  }

  /** How evaluation goes on from `r` over `toks`. */
  function Resume(r: Result<Machine>, toks: seq<Token>): Result<Decimal> {
    match r
    case Err(e) => Err(e)
    case Ok(m) => Complete(m, toks)
  }

  lemma {:induction false} CompleteLink(m: Machine, op: Op, x: string, v: Decimal, rest: seq<Token>)
    requires ParseDecimal(x) == Some(v)
    ensures Complete(m, [Operator(op)] + ([Number(x)] + rest)) == Resume(Next(m, op, v), rest)
  {
    CompleteStep(m, Operator(op), [Number(x)] + rest);
    StepOperator(m, op);
    match Reduce(m, Precedence(op))
    case Err(e) =>
    case Ok(m') =>
      var m1 := Machine(m'.values, m'.operators + [op]);
      CompleteStep(m1, Number(x), rest);
      StepNumber(m1, x, v);
  }

  // ---------------------------------------------------------------------------------------------
  // One operator and literal on each shape

  lemma {:induction false} NextFromOne(a: Decimal, op: Op, v: Decimal)
    ensures Next(Machine([a], []), op, v) == Ok(Machine([a, v], [op]))
  {
    assert Reduce(Machine([a], []), Precedence(op)) == Ok(Machine([a], []));
    assert [a] + [v] == [a, v] && [] + [op] == [op];
  }

  lemma {:induction false} NextFromTwo(a: Decimal, b: Decimal, o1: Op, op: Op, v: Decimal)
    ensures Next(Machine([a, b], [o1]), op, v) ==
      if Precedence(o1) >= Precedence(op) then
        match ApplyOp(o1, a, b)
        case Err(e) => Err(e)
        case Ok(w) => Ok(Machine([w, v], [op]))
      else Ok(Machine([a, b, v], [o1, op]))
  {
    var m := Machine([a, b], [o1]);
    if Precedence(o1) >= Precedence(op) {
      ReduceOne(a, b, o1, Precedence(op));
      assert [] + [op] == [op];
      match ApplyOp(o1, a, b)
      case Err(e) =>
      case Ok(w) => assert [w] + [v] == [w, v];
    } else {
      assert Reduce(m, Precedence(op)) == Ok(m);
      assert [a, b] + [v] == [a, b, v] && [o1] + [op] == [o1, op];
    }
  }

  /** Reducing a pending multiplicative operator above an additive one. */
  lemma {:induction false} ReduceTop(a: Decimal, b: Decimal, c: Decimal, o1: Op, o2: Op, prec: nat)
    requires Precedence(o2) >= prec
    ensures Reduce(Machine([a, b, c], [o1, o2]), prec) ==
      match ApplyOp(o2, b, c)
      case Err(e) => Err(e)
      case Ok(w) => Reduce(Machine([a, w], [o1]), prec)
  {
    ApplyTop([a], [o1], b, c, o2);
    assert [a] + [b, c] == [a, b, c] && [o1] + [o2] == [o1, o2];
    match ApplyOp(o2, b, c)
    case Err(e) =>
    case Ok(w) => assert [a] + [w] == [a, w];
  }

  /** A multiplicative operator after a pending multiplicative one: the pending one is applied. */
  lemma {:induction false} NextFromThreeTighter(a: Decimal, b: Decimal, c: Decimal, o1: Op, o2: Op, op: Op, v: Decimal)
    requires !Multiplicative(o1) && Multiplicative(o2) && Multiplicative(op)
    ensures Next(Machine([a, b, c], [o1, o2]), op, v) ==
      match ApplyOp(o2, b, c)
      case Err(e) => Err(e)
      case Ok(w) => Ok(Machine([a, w, v], [o1, op]))
  {
    ReduceTop(a, b, c, o1, o2, Precedence(op));
    match ApplyOp(o2, b, c)
    case Err(e) =>
    case Ok(w) =>
      assert Reduce(Machine([a, w], [o1]), Precedence(op)) == Ok(Machine([a, w], [o1]));
      assert [a, w] + [v] == [a, w, v] && [o1] + [op] == [o1, op];
  }

  /** Reducing both pending operators. */
  lemma {:induction false} ReduceBoth(a: Decimal, b: Decimal, c: Decimal, o1: Op, o2: Op, prec: nat)
    requires Precedence(o1) >= prec && Precedence(o2) >= prec
    ensures Reduce(Machine([a, b, c], [o1, o2]), prec) ==
      match ApplyOp(o2, b, c)
      case Err(e) => Err(e)
      case Ok(w) =>
        match ApplyOp(o1, a, w)
        case Err(e) => Err(e)
        case Ok(z) => Ok(Machine([z], []))
  {
    ReduceTop(a, b, c, o1, o2, prec);
    match ApplyOp(o2, b, c)
    case Err(e) =>
    case Ok(w) => ReduceOne(a, w, o1, prec);
  }

  /** An additive operator after a pending multiplicative one: both pending ones are applied. */
  lemma {:induction false} NextFromThreeLooser(a: Decimal, b: Decimal, c: Decimal, o1: Op, o2: Op, op: Op, v: Decimal)
    requires !Multiplicative(o1) && Multiplicative(o2) && !Multiplicative(op)
    ensures Next(Machine([a, b, c], [o1, o2]), op, v) ==
      match ApplyOp(o2, b, c)
      case Err(e) => Err(e)
      case Ok(w) =>
        match ApplyOp(o1, a, w)
        case Err(e) => Err(e)
        case Ok(z) => Ok(Machine([z, v], [op]))
  {
    var m := Machine([a, b, c], [o1, o2]);
    assert Precedence(o1) >= Precedence(op) && Precedence(o2) >= Precedence(op);
    ReduceBoth(a, b, c, o1, o2, Precedence(op));
    match ApplyOp(o2, b, c)
    case Err(e) =>
    case Ok(w) =>
      match ApplyOp(o1, a, w)
      case Err(e) =>
      case Ok(z) => NextAfterEmpty(m, op, v, z);
  }

  /** Once reducing empties the operator stack, the new operator and operand start afresh. */
  lemma {:induction false} NextAfterEmpty(m: Machine, op: Op, v: Decimal, z: Decimal)
    requires Reduce(m, Precedence(op)) == Ok(Machine([z], []))
    ensures Next(m, op, v) == Ok(Machine([z, v], [op]))
  {
    assert [] + [op] == [op] && [z] + [v] == [z, v];
  }

  // ---------------------------------------------------------------------------------------------
  // The simulation

  /** After a failure, reading on keeps a failure that is a division by zero. */
  lemma {:induction false} FailedExtend(p: Partial, op: Op, v: Decimal)
    requires Failed(p) && OnlyDivisionByZero(p)
    ensures Failed(Extend(p, op, v)) && OnlyDivisionByZero(Extend(p, op, v))
  {
  }

  /** A failure read so far is the failure of the whole. */
  lemma {:induction false} FailedTotal(p: Partial)
    requires Failed(p) && OnlyDivisionByZero(p)
    ensures Total(p) == Err(DivisionByZero)
  {
  }

  /** Finishing a shaped machine gives the value of the reading it stands for. */
  lemma {:induction false} FinishShaped(m: Machine)
    requires Shaped(m)
    ensures Complete(m, []) == Total(Abstract(m))
  {
    var vs, ops := m.values, m.operators;
    if |ops| == 1 {
      assert m == Machine([vs[0], vs[1]], [ops[0]]);
      FinishOne(vs[0], vs[1], ops[0]);
    } else if |ops| == 2 {
      assert m == Machine([vs[0], vs[1], vs[2]], [ops[0], ops[1]]);
      FinishTwo(vs[0], vs[1], vs[2], ops[0], ops[1]);
    }
  }

  lemma {:induction false} NextTracksOne(a: Decimal, op: Op, v: Decimal)
    ensures Tracks(Next(Machine([a], []), op, v), Extend(Product(Ok(a)), op, v))
  {
    NextFromOne(a, op, v);
  }

  lemma {:induction false} NextTracksTwo(a: Decimal, b: Decimal, o1: Op, op: Op, v: Decimal)
    ensures Tracks(Next(Machine([a, b], [o1]), op, v), Extend(Abstract(Machine([a, b], [o1])), op, v))
  {
    NextFromTwo(a, b, o1, op, v);
    OnlyDivisionByZeroFails(o1, a, b);
  }

  lemma {:induction false} NextTracksThree(a: Decimal, b: Decimal, c: Decimal, o1: Op, o2: Op, op: Op, v: Decimal)
    requires !Multiplicative(o1) && Multiplicative(o2)
    ensures Tracks(Next(Machine([a, b, c], [o1, o2]), op, v), Extend(Abstract(Machine([a, b, c], [o1, o2])), op, v))
  {
    var m := Machine([a, b, c], [o1, o2]);
    assert Abstract(m) == Sum(Ok(a), o1, ApplyOp(o2, b, c));
    OnlyDivisionByZeroFails(o2, b, c);
    if Multiplicative(op) {
      ThreeTracksTighter(a, b, c, o1, o2, op, v);
    } else {
      ThreeTracksLooser(a, b, c, o1, o2, op, v);
    }
  }

  lemma {:induction false} ThreeTracksTighter(a: Decimal, b: Decimal, c: Decimal, o1: Op, o2: Op, op: Op, v: Decimal)
    requires !Multiplicative(o1) && Multiplicative(o2) && Multiplicative(op)
    requires ApplyOp(o2, b, c).Err? ==> ApplyOp(o2, b, c) == Err(DivisionByZero)
    ensures Tracks(Next(Machine([a, b, c], [o1, o2]), op, v), Extend(Sum(Ok(a), o1, ApplyOp(o2, b, c)), op, v))
  {
    NextFromThreeTighter(a, b, c, o1, o2, op, v);
  }

  lemma {:induction false} ThreeTracksLooser(a: Decimal, b: Decimal, c: Decimal, o1: Op, o2: Op, op: Op, v: Decimal)
    requires !Multiplicative(o1) && Multiplicative(o2) && !Multiplicative(op)
    requires ApplyOp(o2, b, c).Err? ==> ApplyOp(o2, b, c) == Err(DivisionByZero)
    ensures Tracks(Next(Machine([a, b, c], [o1, o2]), op, v), Extend(Sum(Ok(a), o1, ApplyOp(o2, b, c)), op, v))
  {
    NextFromThreeLooser(a, b, c, o1, o2, op, v);
    match ApplyOp(o2, b, c)
    case Err(e) =>
    case Ok(w) => OnlyDivisionByZeroFails(o1, a, w);
  }

  /** One operator and literal keep the machine and the one-pass reading in step. */
  lemma {:induction false} NextTracks(m: Machine, op: Op, v: Decimal)
    requires Shaped(m)
    ensures Tracks(Next(m, op, v), Extend(Abstract(m), op, v))
  {
    var vs, ops := m.values, m.operators;
    if |ops| == 0 {
      assert m == Machine([vs[0]], []);
      NextTracksOne(vs[0], op, v);
    } else if |ops| == 1 {
      assert m == Machine([vs[0], vs[1]], [ops[0]]);
      NextTracksTwo(vs[0], vs[1], ops[0], op, v);
    } else {
      assert m == Machine([vs[0], vs[1], vs[2]], [ops[0], ops[1]]);
      NextTracksThree(vs[0], vs[1], vs[2], ops[0], ops[1], op, v);
    }
  }

  /** The machine's state after one more operator and literal. */
  function AdvanceBy(r: Result<Machine>, op: Op, v: Decimal): Result<Machine> {
    match r
    case Err(e) => Err(e)
    case Ok(m) => Next(m, op, v)
  }

  lemma {:induction false} AdvanceByTracks(r: Result<Machine>, p: Partial, op: Op, v: Decimal)
    requires Tracks(r, p)
    ensures Tracks(AdvanceBy(r, op, v), Extend(p, op, v))
  {
    match r
    case Ok(m) => NextTracks(m, op, v);
    case Err(e) => FailedExtend(p, op, v);
  }

  lemma {:induction false} ResumeLink(r: Result<Machine>, links: seq<Link>)
    requires links != [] && Readable(links)
    ensures Readable(links[1..])
    ensures Resume(r, LinkTokens(links)) ==
      Resume(AdvanceBy(r, links[0].op, ParseDecimal(links[0].text).value), LinkTokens(links[1..]))
  {
    var rest := links[1..];
    forall k | 0 <= k < |rest| ensures ParseDecimal(rest[k].text).Some? {
      assert rest[k] == links[k + 1];
    }
    match r
    case Ok(m) =>
      CompleteLink(m, links[0].op, links[0].text, ParseDecimal(links[0].text).value, LinkTokens(rest));
    case Err(e) =>
  }

  lemma {:induction false} ResumeEnd(r: Result<Machine>, p: Partial)
    requires Tracks(r, p)
    ensures Resume(r, []) == Total(p)
  {
    match r
    case Ok(m) => FinishShaped(m);
    case Err(e) => FailedTotal(p);
  }

  /** From matching states, the machine and the one-pass reading agree on the rest of the expression. */
  lemma {:induction false} ResumeTracks(r: Result<Machine>, p: Partial, links: seq<Link>)
    requires Tracks(r, p) && Readable(links)
    ensures Resume(r, LinkTokens(links)) == Total(Fold(p, Operations(links)))
    decreases |links|
  {
    if links == [] {
      ResumeEnd(r, p);
    } else {
      var op, v := links[0].op, ParseDecimal(links[0].text).value;
      ResumeLink(r, links);
      assert Operations(links)[0] == Operation(op, v) && Operations(links)[1..] == Operations(links[1..]);
      AdvanceByTracks(r, p, op, v);
      ResumeTracks(AdvanceBy(r, op, v), Extend(p, op, v), links[1..]);
    }
  }

  /** The machine, run over a literal and any number of operators and literals, computes the
      conventional value. */
  lemma {:induction false} MachineIsConventional(x: string, v: Decimal, links: seq<Link>)
    requires ParseDecimal(x) == Some(v) && Readable(links)
    ensures Complete(Initial, [Number(x)] + LinkTokens(links)) == Conventional(v, Operations(links))
  {
    FirstOperand(x, v, LinkTokens(links));
    ResumeTracks(Ok(Machine([v], [])), Product(Ok(v)), links);
    FoldIsConventional(v, Operations(links));
  }

  // ---------------------------------------------------------------------------------------------
  // The text

  /** Every literal of the links is an unsigned numeral. */
  predicate Literals(links: seq<Link>) {
    forall k :: 0 <= k < |links| ==> IsUnsignedNumeral(links[k].text)
  }

  /** An unsigned numeral reads as a decimal. */
  lemma {:induction false} NumeralReads(t: string)
    requires IsUnsignedNumeral(t)
    ensures |t| > 0 && ParseDecimal(t).Some?
  {
    var k :| 0 <= k < |t| && IsDigit(t[k]);
    assert Unsigned(t) == t;
    ParseAccepts(t);
  }

  lemma {:induction false} LiteralsRead(links: seq<Link>)
    requires Literals(links)
    ensures Readable(links)
  {
    forall k | 0 <= k < |links| ensures ParseDecimal(links[k].text).Some? {
      NumeralReads(links[k].text);
    }
  }

  lemma {:induction false} LiteralsTail(links: seq<Link>)
    requires links != [] && Literals(links)
    ensures Literals(links[1..])
  {
    forall k | 0 <= k < |links| - 1 ensures IsUnsignedNumeral(links[1..][k].text) {
      assert links[1..][k] == links[k + 1];
    }
  }

  /** The text of the links holds only digits, points and operators. */
  lemma {:induction false} LinkTextChars(links: seq<Link>)
    requires Literals(links)
    ensures forall k :: 0 <= k < |LinkText(links)| ==> IsNumberChar(LinkText(links)[k]) || IsOperator(LinkText(links)[k])
    decreases |links|
  {
    if links != [] {
      var c, x, rest := Symbol(links[0].op), links[0].text, links[1..];
      LiteralsTail(links);
      LinkTextChars(rest);
      var t := LinkText(links);
      forall k | 0 <= k < |t| ensures IsNumberChar(t[k]) || IsOperator(t[k]) {
        if k == 0 {
          assert t[k] == c;
        } else if k <= |x| {
          assert t[k] == x[k - 1];
        } else {
          assert t[k] == LinkText(rest)[k - 1 - |x|];
        }
      }
    }
  }

  /** The pieces of `s` from `i` on, when it reads `x`, then `c`, then `y`. */
  lemma {:induction false} SplitAfter(s: string, i: nat, x: string, c: char, y: string)
    requires i <= |s| && s[i..] == x + ([c] + y)
    ensures i + |x| < |s| && s[i..i + |x|] == x && s[i + |x|] == c && s[i + |x| + 1..] == y
  {
    var p := i + |x|;
    assert forall k :: i <= k < p ==> s[k] == s[i..][k - i] == x[k - i];
    assert forall k :: p < k < |s| ==> s[k] == s[i..][k - i] == y[k - p - 1];
    assert s[i..][p - i] == c;
  }

  /** A non-empty run of digits and points: what the scan reads as one literal. */
  predicate NumeralRun(x: string) {
    |x| > 0 && forall k :: 0 <= k < |x| ==> IsNumberChar(x[k])
  }

  /** Every literal of the links is such a run. */
  predicate NumeralRuns(links: seq<Link>) {
    forall k :: 0 <= k < |links| ==> NumeralRun(links[k].text)
  }

  lemma {:induction false} LiteralsAreRuns(links: seq<Link>)
    requires Literals(links)
    ensures NumeralRuns(links)
  {
    forall k | 0 <= k < |links| ensures NumeralRun(links[k].text) {
      NumeralReads(links[k].text);
    }
  }

  /** A literal that ends the text is its last token. */
  lemma {:induction false} LastLiteral(s: string, i: nat, x: string)
    requires Scannable(s) && i <= |s| && s[i..] == x && NumeralRun(x)
    ensures Tokens(s, i) == [Number(x)]
  {
    assert forall k :: i <= k < |s| ==> s[k] == s[i..][k - i] == x[k - i];
    assert s[i..|s|] == x;
    NumeralToken(s, i, |s|);
  }

  /** A literal followed by an operator is one token. */
  lemma {:induction false} LiteralBeforeOperator(s: string, i: nat, p: nat)
    requires Scannable(s) && i < p < |s| && IsOperator(s[p]) && NumeralRun(s[i..p])
    ensures Tokens(s, i) == [Number(s[i..p])] + Tokens(s, p)
  {
    assert forall k :: i <= k < p ==> s[k] == s[i..p][k - i];
    NumeralToken(s, i, p);
  }

  lemma {:induction false} RunEndsInNumberChar(s: string, i: nat, p: nat)
    requires i < p <= |s| && NumeralRun(s[i..p])
    ensures IsNumberChar(s[p - 1])
  {
    assert s[i..p][p - 1 - i] == s[p - 1];
  }

  lemma {:induction false} OpOfSymbol(op: Op)
    ensures OpOf(Symbol(op)) == op
  {
    match op
    case Plus =>
    case Minus =>
    case Times =>
    case Over =>
  }

  /** A literal followed by an operator scans as their two tokens. */
  lemma {:induction false} LiteralThenOperator(s: string, i: nat, p: nat)
    requires Scannable(s) && i < p < |s| && NumeralRun(s[i..p]) && IsOperator(s[p])
    ensures Tokens(s, i) == [Number(s[i..p])] + ([Operator(OpOf(s[p]))] + Tokens(s, p + 1))
  {
    assert Tokens(s, i) == [Number(s[i..p])] + Tokens(s, p) by {
      LiteralBeforeOperator(s, i, p);
    }
    assert Tokens(s, p) == [Operator(OpOf(s[p]))] + Tokens(s, p + 1) by {
      RunEndsInNumberChar(s, i, p);
      OperatorToken(s, p);
    }
  }

  /** A literal and the operator after it, in front of the rest of the text. */
  lemma {:induction false} ChainStep(s: string, i: nat, x: string, op: Op)
    requires Scannable(s) && i + |x| < |s| && s[i..i + |x|] == x && s[i + |x|] == Symbol(op)
    requires NumeralRun(x)
    ensures Tokens(s, i) == [Number(x)] + ([Operator(op)] + Tokens(s, i + |x| + 1))
  {
    var p := i + |x|;
    LiteralThenOperator(s, i, p);
    OpOfSymbol(op);
    Rename(Tokens(s, i), Tokens(s, p + 1), s[i..p], x, OpOf(s[p]), op);
  }

  lemma {:induction false} Rename(whole: seq<Token>, after: seq<Token>, a: string, x: string, o: Op, op: Op)
    requires a == x && o == op && whole == [Number(a)] + ([Operator(o)] + after)
    ensures whole == [Number(x)] + ([Operator(op)] + after)
  {
  }

  /** Where the first link starts, when the text from `i` on is a literal and the links. */
  lemma {:induction false} ChainSplit(s: string, i: nat, x: string, links: seq<Link>)
    requires links != [] && i <= |s| && s[i..] == x + LinkText(links)
    ensures i + |x| < |s| && s[i..i + |x|] == x && s[i + |x|] == Symbol(links[0].op)
    ensures s[i + |x| + 1..] == links[0].text + LinkText(links[1..])
  {
    SplitAfter(s, i, x, Symbol(links[0].op), links[0].text + LinkText(links[1..]));
  }

  lemma {:induction false} RunsTail(links: seq<Link>)
    requires links != [] && NumeralRuns(links)
    ensures NumeralRun(links[0].text) && NumeralRuns(links[1..])
  {
    forall k | 0 <= k < |links| - 1 ensures NumeralRun(links[1..][k].text) {
      assert links[1..][k] == links[k + 1];
    }
  }

  /** A literal that ends the text is a chain with no links. */
  lemma {:induction false} ChainEnd(s: string, i: nat, x: string)
    requires Scannable(s) && i <= |s| && s[i..] == x + LinkText([]) && NumeralRun(x)
    ensures Tokens(s, i) == [Number(x)] + LinkTokens([])
  {
    assert s[i..] == x;
    LastLiteral(s, i, x);
    assert [Number(x)] + [] == [Number(x)];
  }

  /** The tokens of a literal, then of an operator and the rest, are those of the literal and the links. */
  lemma {:induction false} Glue(whole: seq<Token>, after: seq<Token>, x: string, links: seq<Link>)
    requires links != [] && whole == [Number(x)] + ([Operator(links[0].op)] + after)
    requires after == [Number(links[0].text)] + LinkTokens(links[1..])
    ensures whole == [Number(x)] + LinkTokens(links)
  {
  }

  /** From `i` on, a literal and the links scan as the literal's token and the links' tokens. */
  lemma {:induction false} TokensOfChain(s: string, i: nat, x: string, links: seq<Link>)
    requires Scannable(s) && i <= |s| && s[i..] == x + LinkText(links)
    requires NumeralRun(x) && NumeralRuns(links)
    ensures Tokens(s, i) == [Number(x)] + LinkTokens(links)
    decreases |links|
  {
    if links == [] {
      ChainEnd(s, i, x);
    } else {
      var p := i + |x|;
      ChainSplit(s, i, x, links);
      assert Tokens(s, p + 1) == [Number(links[0].text)] + LinkTokens(links[1..]) by {
        RunsTail(links);
        TokensOfChain(s, p + 1, links[0].text, links[1..]);
      }
      ChainStep(s, i, x, links[0].op);
      Glue(Tokens(s, i), Tokens(s, p + 1), x, links);
    }
  }

  /** A literal followed by operators and literals can be scanned. */
  lemma {:induction false} ChainScannable(s: string, x: string, links: seq<Link>)
    requires s == x + LinkText(links) && IsUnsignedNumeral(x) && Literals(links)
    ensures Scannable(s)
  {
    LinkTextChars(links);
    forall k | 0 <= k < |s| ensures IsNumberChar(s[k]) || IsOperator(s[k]) {
      if k >= |x| {
        assert s[k] == LinkText(links)[k - |x|];
      }
    }
  }

  /** The expression `x op1 x1 op2 x2 ...` of unsigned literals evaluates to its conventional
      value: `+ -` applied left to right to terms in which `* /` have been applied left to right. */
  lemma {:induction false} EvaluationIsConventional(s: string, x: string, links: seq<Link>)
    requires s == x + LinkText(links) && IsUnsignedNumeral(x) && Literals(links)
    ensures Scannable(s) && ParseDecimal(x).Some? && Readable(links)
    ensures Evaluation(s) == Conventional(ParseDecimal(x).value, Operations(links))
  {
    NumeralReads(x);
    LiteralsRead(links);
    ChainScannable(s, x, links);
    assert s[0..] == s;
    LiteralsAreRuns(links);
    TokensOfChain(s, 0, x, links);
    MachineIsConventional(x, ParseDecimal(x).value, links);
  }
}
