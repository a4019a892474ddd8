/** Day 7 of src/bin/day7.rs: an equation is a test value and a row of
    operands; it is calibrated when some choice of operators between the
    operands, evaluated strictly left to right, yields the test value. Part 1
    has `+` and `*`, part 2 also digit concatenation. */
module Day7 {
  import opened Wrappers
  import opened Text
  import opened Digits

  datatype Equation = Equation(operands: seq<nat>, testValue: nat)

  datatype Op = Add | Mul | Concat

  /** The two operator alphabets: part 1's and part 2's. */
  datatype Alphabet = MulAdd | ConcatMulAdd

  function Radix(alphabet: Alphabet): (r: nat)
    ensures r >= 2
  {
    if alphabet == MulAdd then 2 else 3
  }

  /** `concatenate_int`: `a` shifted left by the decimal digits of `b`,
      then `b` added. */
  function Concatenate(a: nat, b: nat): nat {
    a * Pow10(NumDigits(b)) + b
  }

  function Apply(op: Op, a: nat, b: nat): nat {
    match op
    case Add => a + b
    case Mul => a * b
    case Concat => Concatenate(a, b)
  }

  /** The operator a digit selects: in base 2 a clear bit multiplies and a set
      bit adds; in base 3, 0 concatenates, 1 multiplies and 2 adds. */
  function OpOf(alphabet: Alphabet, digit: nat): (op: Op)
    ensures alphabet == MulAdd ==> op != Concat
  {
    match alphabet
    case MulAdd => if digit == 0 then Mul else Add
    case ConcatMulAdd => if digit == 0 then Concat else if digit == 1 then Mul else Add
  }

  predicate InAlphabet(alphabet: Alphabet, op: Op) {
    alphabet == ConcatMulAdd || op != Concat
  }

  predicate AllInAlphabet(alphabet: Alphabet, ops: seq<Op>) {
    forall i :: 0 <= i < |ops| ==> InAlphabet(alphabet, ops[i])
  }

  /** The operators a combination number stands for, most significant digit
      first: the digit of weight `radix^(count-1)` is taken off the top, and
      the rest is what remains below it. */
  function Decode(alphabet: Alphabet, combination: nat, count: nat): (ops: seq<Op>)
    ensures |ops| == count && AllInAlphabet(alphabet, ops)
  {
    if count == 0 then []
    else
      var weight := Pow(Radix(alphabet), count - 1);
      [OpOf(alphabet, combination / weight)] + Decode(alphabet, combination % weight, count - 1)
  }

  /** The digit that selects `op`: the inverse of `OpOf`. */
  function DigitOf(alphabet: Alphabet, op: Op): (d: nat)
    ensures d < Radix(alphabet)
    ensures InAlphabet(alphabet, op) ==> OpOf(alphabet, d) == op
  {
    match (alphabet, op)
    case (MulAdd, Mul) => 0
    case (MulAdd, _) => 1
    case (ConcatMulAdd, Concat) => 0
    case (ConcatMulAdd, Mul) => 1
    case (ConcatMulAdd, Add) => 2
  }

  /** The combination number of an operator sequence. */
  function Encode(alphabet: Alphabet, ops: seq<Op>): nat
    requires AllInAlphabet(alphabet, ops)
  {
    if ops == [] then 0
    else DigitOf(alphabet, ops[0]) * Pow(Radix(alphabet), |ops| - 1) + Encode(alphabet, ops[1..])
  }

  /** Every operator sequence over the alphabet has a combination number in
      range. */
  lemma {:induction false} EncodeBound(alphabet: Alphabet, ops: seq<Op>)
    requires AllInAlphabet(alphabet, ops)
    ensures Encode(alphabet, ops) < Pow(Radix(alphabet), |ops|)
  {
    if ops != [] {
      var radix, n := Radix(alphabet), |ops|;
      var weight := Pow(radix, n - 1);
      var d, rest := DigitOf(alphabet, ops[0]), Encode(alphabet, ops[1..]);
      EncodeBound(alphabet, ops[1..]);
      MulMonotone(d + 1, radix, weight);
      assert Encode(alphabet, ops) == d * weight + rest;
      assert Pow(radix, n) == radix * weight;
    }
  }

  /** Decoding the combination number of an operator sequence gives the
      sequence back. */
  lemma {:induction false} DecodeEncode(alphabet: Alphabet, ops: seq<Op>)
    requires AllInAlphabet(alphabet, ops)
    ensures Encode(alphabet, ops) < Pow(Radix(alphabet), |ops|)
    ensures Decode(alphabet, Encode(alphabet, ops), |ops|) == ops
  {
    EncodeBound(alphabet, ops);
    if ops != [] {
      var radix, n := Radix(alphabet), |ops|;
      var weight := Pow(radix, n - 1);
      var d, rest := DigitOf(alphabet, ops[0]), Encode(alphabet, ops[1..]);
      var c := Encode(alphabet, ops);
      EncodeBound(alphabet, ops[1..]);
      assert c == d * weight + rest;
      DivUnique(c, weight, d, rest);
      DecodeEncode(alphabet, ops[1..]);
      assert Decode(alphabet, c, n) == [OpOf(alphabet, d)] + Decode(alphabet, rest, n - 1);
    }
  }

  /** The running total of one combination, strictly left to right: the
      search gives up on a combination as soon as the total exceeds the test
      value, and then that exceeding total is its result. */
  function Run(total: nat, operands: seq<nat>, ops: seq<Op>, test: nat): nat
    requires |ops| == |operands|
    decreases |ops|
  {
    if ops == [] then total
    else
      var next := Apply(ops[0], total, operands[0]);
      if next > test then next else Run(next, operands[1..], ops[1..], test)
  }

  /** The full left-to-right value, without giving up. */
  function Evaluate(total: nat, operands: seq<nat>, ops: seq<Op>): nat
    requires |ops| == |operands|
    decreases |ops|
  {
    if ops == [] then total
    else Evaluate(Apply(ops[0], total, operands[0]), operands[1..], ops[1..])
  }

  predicate Positive(operands: seq<nat>) {
    forall i :: 0 <= i < |operands| ==> operands[i] > 0
  }

  /** No operator lowers the total when the operand is positive. */
  lemma ApplyGrows(op: Op, a: nat, b: nat)
    requires b > 0
    ensures Apply(op, a, b) >= a
  {
    match op
    case Add =>
    case Mul => MulMonotone(1, b, a);
    case Concat => MulMonotone(1, Pow10(NumDigits(b)), a);
  }

  /** With positive operands the evaluation never ends below its start. */
  lemma {:induction false} EvaluateGrows(total: nat, operands: seq<nat>, ops: seq<Op>)
    requires |ops| == |operands| && Positive(operands)
    ensures Evaluate(total, operands, ops) >= total
    decreases |ops|
  {
    if ops != [] {
      ApplyGrows(ops[0], total, operands[0]);
      EvaluateGrows(Apply(ops[0], total, operands[0]), operands[1..], ops[1..]);
    }
  }

  /** Giving up early is exact when every operand after the first is
      positive: the shortened run hits the test value exactly when the full
      evaluation does. */
  lemma {:induction false} RunExact(total: nat, operands: seq<nat>, ops: seq<Op>, test: nat)
    requires |ops| == |operands| && Positive(operands)
    ensures Run(total, operands, ops, test) == test <==> Evaluate(total, operands, ops) == test
    decreases |ops|
  {
    if ops != [] {
      var next := Apply(ops[0], total, operands[0]);
      if next > test {
        EvaluateGrows(next, operands[1..], ops[1..]);
      } else {
        RunExact(next, operands[1..], ops[1..], test);
      }
    }
  }

  /** A zero operand breaks that exactness: `0: 6 7 0` holds with two
      multiplications, but every combination has passed 0 after `6 ? 7`. */
  lemma RunMissesZeroOperand()
    ensures Evaluate(6, [7, 0], [Mul, Mul]) == 0
    ensures forall ops :: |ops| == 2 ==> Run(6, [7, 0], ops, 0) != 0
  {
  }

  /** The equation holds for combination number `combination`. */
  predicate Holds(eq: Equation, alphabet: Alphabet, combination: nat)
    requires |eq.operands| >= 1
  {
    var count := |eq.operands| - 1;
    Run(eq.operands[0], eq.operands[1..], Decode(alphabet, combination, count), eq.testValue) == eq.testValue
  }

  /** Some combination number below `radix^count` makes the equation hold. */
  predicate Calibrated(eq: Equation, alphabet: Alphabet)
    requires |eq.operands| >= 1
  {
    exists c: nat :: c < Pow(Radix(alphabet), |eq.operands| - 1) && Holds(eq, alphabet, c)
  }

  /** The search over combination numbers covers exactly the operator
      sequences over the alphabet. */
  lemma CalibratedIff(eq: Equation, alphabet: Alphabet)
    requires |eq.operands| >= 1
    ensures Calibrated(eq, alphabet) <==>
      exists ops: seq<Op> :: |ops| == |eq.operands| - 1 && AllInAlphabet(alphabet, ops)
        && Run(eq.operands[0], eq.operands[1..], ops, eq.testValue) == eq.testValue
  {
    var count := |eq.operands| - 1;
    if Calibrated(eq, alphabet) {
      var c: nat :| c < Pow(Radix(alphabet), count) && Holds(eq, alphabet, c);
      var ops := Decode(alphabet, c, count);
      assert |ops| == count && AllInAlphabet(alphabet, ops);
    }
    if exists ops: seq<Op> :: |ops| == count && AllInAlphabet(alphabet, ops)
        && Run(eq.operands[0], eq.operands[1..], ops, eq.testValue) == eq.testValue {
      var ops: seq<Op> :| |ops| == count && AllInAlphabet(alphabet, ops)
        && Run(eq.operands[0], eq.operands[1..], ops, eq.testValue) == eq.testValue;
      DecodeEncode(alphabet, ops);
      assert Holds(eq, alphabet, Encode(alphabet, ops));
    }
  }

  /** The top digit of a combination number selects the first operator,
      the digits below it the rest. */
  lemma DecodeTop(alphabet: Alphabet, combination: nat, offset: nat)
    ensures Decode(alphabet, combination, offset + 1)
      == [OpOf(alphabet, combination / Pow(Radix(alphabet), offset))]
         + Decode(alphabet, combination % Pow(Radix(alphabet), offset), offset)
  {
  }

  /** One step of the inner loops: the first operator is applied, and the
      run goes on with the rest unless it exceeds the test value. */
  lemma RunCons(total: nat, operands: seq<nat>, op: Op, rest: seq<Op>, test: nat)
    requires |operands| == |rest| + 1
    ensures var next := Apply(op, total, operands[0]);
      Run(total, operands, [op] + rest, test)
      == if next > test then next else Run(next, operands[1..], rest, test)
  {
    assert ([op] + rest)[1..] == rest;
  }

  /** Part 1's bitset is not cut down: testing bit `offset` of it is reading
      the top digit of what lies below bit `offset + 1`. */
  lemma BitBelow(bits: nat, offset: nat)
    ensures (bits % Pow(2, offset + 1)) / Pow(2, offset) == (bits / Pow(2, offset)) % 2
    ensures (bits % Pow(2, offset + 1)) % Pow(2, offset) == bits % Pow(2, offset)
  {
    DigitBelow(bits, 2, Pow(2, offset));
  }

  /** Part 1's inner loop for bitset `bits`: bit `offset` set means add
      before operand `count - offset`, clear means multiply. */
  method RunBits(eq: Equation, bits: nat) returns (total: nat)
    requires |eq.operands| >= 2 && bits < Pow(2, |eq.operands| - 1)
    ensures total == Run(eq.operands[0], eq.operands[1..], Decode(MulAdd, bits, |eq.operands| - 1), eq.testValue)
  {
    var count := |eq.operands| - 1;
    ghost var result := Run(eq.operands[0], eq.operands[1..], Decode(MulAdd, bits, count), eq.testValue);
    total := eq.operands[0];
    var offset := count;
    DivUnique(bits, Pow(2, count), 0, bits);
    while offset > 0
      invariant 0 <= offset <= count
      invariant Run(total, eq.operands[count - offset + 1..], Decode(MulAdd, bits % Pow(2, offset), offset), eq.testValue) == result
    {
      offset := offset - 1;
      var next := eq.operands[count - offset];
      var check := (bits / Pow(2, offset)) % 2;
      BitBelow(bits, offset);
      DecodeTop(MulAdd, bits % Pow(2, offset + 1), offset);
      RunCons(total, eq.operands[count - offset..], OpOf(MulAdd, check),
        Decode(MulAdd, bits % Pow(2, offset), offset), eq.testValue);
      assert eq.operands[count - offset..][1..] == eq.operands[count - offset + 1..];
      var operator := if check == 0 then Mul else Add;
      total := Apply(operator, total, next);
      if total > eq.testValue {
        break;
      }
    }
  }

  /** Part 2's inner loop for tritset `trits`: the top trit is divided off
      and the tritset cut down below it at every offset. */
  method RunTrits(eq: Equation, trits: nat) returns (total: nat)
    requires |eq.operands| >= 2
    ensures total == Run(eq.operands[0], eq.operands[1..], Decode(ConcatMulAdd, trits, |eq.operands| - 1), eq.testValue)
  {
    var count := |eq.operands| - 1;
    ghost var result := Run(eq.operands[0], eq.operands[1..], Decode(ConcatMulAdd, trits, count), eq.testValue);
    total := eq.operands[0];
    var offset := count;
    var tritset: nat := trits;
    while offset > 0
      invariant 0 <= offset <= count
      invariant Run(total, eq.operands[count - offset + 1..], Decode(ConcatMulAdd, tritset, offset), eq.testValue) == result
    {
      offset := offset - 1;
      var next := eq.operands[count - offset];
      var weight := Pow(3, offset);
      DivMod(tritset, weight);
      var check: nat := tritset / weight;
      var below: nat := tritset % weight;
      DecodeTop(ConcatMulAdd, tritset, offset);
      RunCons(total, eq.operands[count - offset..], OpOf(ConcatMulAdd, check),
        Decode(ConcatMulAdd, below, offset), eq.testValue);
      assert eq.operands[count - offset..][1..] == eq.operands[count - offset + 1..];
      tritset := below;
      var operator := if check == 0 then Concat else if check == 1 then Mul else Add;
      total := Apply(operator, total, next);
      if total > eq.testValue {
        break;
      }
    }
  }

  /** One combination, run by the part's own inner loop. */
  method RunCombination(eq: Equation, alphabet: Alphabet, combination: nat) returns (total: nat)
    requires |eq.operands| >= 2 && combination < Pow(Radix(alphabet), |eq.operands| - 1)
    ensures total == eq.testValue <==> Holds(eq, alphabet, combination)
  {
    if alphabet == MulAdd {
      total := RunBits(eq, combination);
    } else {
      total := RunTrits(eq, combination);
    }
  }

  /** The search over all combination numbers, stopping at the first that
      makes the equation hold. */
  method Search(eq: Equation, alphabet: Alphabet) returns (found: bool)
    requires |eq.operands| >= 2
    ensures found <==> Calibrated(eq, alphabet)
  {
    var count := |eq.operands| - 1;
    var combinations := Pow(Radix(alphabet), count);
    var c: nat := 0;
    found := false;
    while c < combinations
      invariant 0 <= c <= combinations
      invariant forall c': nat :: c' < c ==> !Holds(eq, alphabet, c')
    {
      var total := RunCombination(eq, alphabet, c);
      if total == eq.testValue {
        found := true;
        break;
      }
      c := c + 1;
    }
  }

  /** The total calibration result: the test values of the calibrated
      equations, each counted once. */
  function CalibrationTotal(eqs: seq<Equation>, alphabet: Alphabet): nat
    requires forall i :: 0 <= i < |eqs| ==> |eqs[i].operands| >= 1
  {
    if eqs == [] then 0
    else
      var last := eqs[|eqs| - 1];
      CalibrationTotal(eqs[..|eqs| - 1], alphabet) + if Calibrated(last, alphabet) then last.testValue else 0
  }

  /** The total bounds: it never exceeds the sum of all test values and is
      that sum when every equation is calibrated. */
  function TestValueSum(eqs: seq<Equation>): nat {
    if eqs == [] then 0 else TestValueSum(eqs[..|eqs| - 1]) + eqs[|eqs| - 1].testValue
  }

  lemma {:induction false} CalibrationTotalBounded(eqs: seq<Equation>, alphabet: Alphabet)
    requires forall i :: 0 <= i < |eqs| ==> |eqs[i].operands| >= 1
    ensures CalibrationTotal(eqs, alphabet) <= TestValueSum(eqs)
    ensures (forall i :: 0 <= i < |eqs| ==> Calibrated(eqs[i], alphabet))
            ==> CalibrationTotal(eqs, alphabet) == TestValueSum(eqs)
  {
    if eqs != [] {
      CalibrationTotalBounded(eqs[..|eqs| - 1], alphabet);
    }
  }

  /** Part 2's operators include part 1's, so every equation part 1
      calibrates part 2 calibrates too. */
  lemma Part2Extends(eq: Equation)
    requires |eq.operands| >= 1
    requires Calibrated(eq, MulAdd)
    ensures Calibrated(eq, ConcatMulAdd)
  {
    CalibratedIff(eq, MulAdd);
    CalibratedIff(eq, ConcatMulAdd);
  }

  lemma {:induction false} Part2TotalAtLeast(eqs: seq<Equation>)
    requires forall i :: 0 <= i < |eqs| ==> |eqs[i].operands| >= 1
    ensures CalibrationTotal(eqs, MulAdd) <= CalibrationTotal(eqs, ConcatMulAdd)
  {
    if eqs != [] {
      Part2TotalAtLeast(eqs[..|eqs| - 1]);
      if Calibrated(eqs[|eqs| - 1], MulAdd) {
        Part2Extends(eqs[|eqs| - 1]);
      }
    }
  }

  /** `concatenate_int` is concatenation of decimal numerals. */
  lemma ConcatenateIsNumeralConcatenation(a: nat, b: nat)
    ensures DigitsValue(Decimal(a) + Decimal(b)) == Concatenate(a, b)
  {
    DecimalLength(b);
    DigitsValueAppend(Decimal(a), Decimal(b));
    DigitsValueOfDecimal(a);
    DigitsValueOfDecimal(b);
  }

  lemma {:induction false} DecimalLength(n: nat)
    ensures |Decimal(n)| == NumDigits(n)
  {
    if n >= 10 {
      DecimalLength(n / 10);
    }
  }

  lemma AllDigitsAppend(s: string, t: string)
    requires AllDigits(s) && AllDigits(t)
    ensures AllDigits(s + t)
  {
    assert forall i :: 0 <= i < |s + t| ==> (s + t)[i] == if i < |s| then s[i] else t[i - |s|];
  }

  lemma {:induction false} DigitsValueAppend(s: string, t: string)
    requires AllDigits(s) && AllDigits(t)
    ensures AllDigits(s + t)
    ensures DigitsValue(s + t) == DigitsValue(s) * Pow10(|t|) + DigitsValue(t)
    decreases |t|
  {
    AllDigitsAppend(s, t);
    if t == [] {
      assert s + t == s;
    } else {
      var n := |t| - 1;
      assert (s + t)[..|s + t| - 1] == s + t[..n];
      DigitsValueAppend(s, t[..n]);
      var d := t[n] as int - '0' as int;
      var v, p, w := DigitsValue(s), Pow10(n), DigitsValue(t[..n]);
      assert DigitsValue(s + t) == 10 * (v * p + w) + d;
      assert DigitsValue(t) == 10 * w + d;
      ShiftDigit(v, p, w, d);
    }
  }

  lemma ShiftDigit(v: int, p: int, w: int, d: int)
    ensures 10 * (v * p + w) + d == v * (10 * p) + (10 * w + d)
  {
  }

  /** `Equation::from_str`: `test: a b c ...` with at least two operands. */
  function ParseEquation(line: string): (r: Result<Equation, string>)
    ensures SplitOnce(line, ":").None? ==> r == Err("Equation was missing a `:` character")
    ensures r.Ok? ==> |r.value.operands| >= 2
    ensures r.Ok? <==> match SplitOnce(line, ":")
      case None => false
      case Some((head, tail)) =>
        ParseU64(head).Some? && ParseEach(SplitWhitespace(tail), ParseU64OrError).Ok?
        && |ParseEach(SplitWhitespace(tail), ParseU64OrError).value| >= 2
  {
    match SplitOnce(line, ":")
    case None => Err("Equation was missing a `:` character")
    case Some((head, tail)) =>
      match ParseU64(head)
      case None => Err(U64ErrorMessage(head))
      case Some(test) =>
        match ParseEach(SplitWhitespace(tail), ParseU64OrError)
        case Err(e) => Err(e)
        case Ok(operands) =>
          if |operands| < 2 then Err("An equation should have at least 2 operands.")
          else Ok(Equation(operands, test))
  }

  predicate InU64(ns: seq<nat>) {
    forall i :: 0 <= i < |ns| ==> ns[i] < U64_LIMIT
  }

  function Numerals(ns: seq<nat>): (r: seq<string>)
    ensures |r| == |ns| && forall i :: 0 <= i < |ns| ==> r[i] == Decimal(ns[i])
  {
    seq(|ns|, i requires 0 <= i < |ns| => Decimal(ns[i]))
  }

  /** An equation written out as a line: `test: a b c`. */
  function Format(eq: Equation): string {
    Decimal(eq.testValue) + ":" + Spaced(Numerals(eq.operands))
  }

  /** Printed `u64`s parse back to themselves. */
  lemma {:induction false} ParseNumerals(ns: seq<nat>)
    requires InU64(ns)
    ensures ParseEach(Numerals(ns), ParseU64OrError) == Ok(ns)
    decreases |ns|
  {
    if ns != [] {
      assert Numerals(ns)[1..] == Numerals(ns[1..]);
      ParseU64OfDecimal(ns[0]);
      ParseNumerals(ns[1..]);
      assert [ns[0]] + ns[1..] == ns;
    }
  }

  /** Every equation of `u64`s with at least two operands survives being
      written out and parsed back. */
  lemma ParseEquationFormat(eq: Equation)
    requires |eq.operands| >= 2 && eq.testValue < U64_LIMIT && InU64(eq.operands)
    ensures ParseEquation(Format(eq)) == Ok(eq)
  {
    var numerals := Numerals(eq.operands);
    forall i | 0 <= i < |numerals|
      ensures Word(numerals[i])
    {
      assert numerals[i] == Decimal(eq.operands[i]);
    }
    assert ':' !in Decimal(eq.testValue);
    SplitOnceAt(Decimal(eq.testValue), ':', Spaced(numerals));
    SplitWhitespaceSpaced(numerals);
    ParseNumerals(eq.operands);
    ParseU64OfDecimal(eq.testValue);
  }

  predicate WellFormed(eqs: seq<Equation>) {
    forall i :: 0 <= i < |eqs| ==> |eqs[i].operands| >= 2
  }

  /** Every line parsed, the first failure reported; each equation parsed
      has at least two operands. */
  function ParseEquations(lines: seq<string>): (r: Result<seq<Equation>, string>)
    ensures r.Ok? ==> |r.value| == |lines| && WellFormed(r.value)
  {
    var r := ParseEach(lines, ParseEquation);
    assert r.Ok? ==> forall i :: 0 <= i < |lines| ==> ParseEquation(lines[i]) == Ok(r.value[i]);
    r
  }

  lemma CalibrationTotalSnoc(eqs: seq<Equation>, eq: Equation, alphabet: Alphabet)
    requires WellFormed(eqs) && |eq.operands| >= 2
    ensures WellFormed(eqs + [eq])
    ensures CalibrationTotal(eqs + [eq], alphabet)
         == CalibrationTotal(eqs, alphabet) + if Calibrated(eq, alphabet) then eq.testValue else 0
  {
    assert (eqs + [eq])[..|eqs|] == eqs;
  }

  /** The loop over the equations. */
  method Total(eqs: seq<Equation>, alphabet: Alphabet) returns (total: nat)
    requires WellFormed(eqs)
    ensures total == CalibrationTotal(eqs, alphabet)
  {
    total := 0;
    var i := 0;
    while i < |eqs|
      invariant 0 <= i <= |eqs|
      invariant total == CalibrationTotal(eqs[..i], alphabet)
    {
      var found := Search(eqs[i], alphabet);
      CalibrationTotalSnoc(eqs[..i], eqs[i], alphabet);
      assert eqs[..i + 1] == eqs[..i] + [eqs[i]];
      if found {
        total := total + eqs[i].testValue;
      }
      i := i + 1;
    }
    assert eqs[..i] == eqs;
  }

  /** Both parts: every line must parse, then the calibrated equations'
      test values are summed. */
  method Solve(input: string, alphabet: Alphabet) returns (r: Result<nat, string>)
    ensures r.Err? <==> ParseEquations(Lines(input)).Err?
    ensures r.Ok? ==> r.value == CalibrationTotal(ParseEquations(Lines(input)).value, alphabet)
  {
    var parsed := ParseEquations(Lines(input));
    if parsed.Err? {
      return Err(parsed.error);
    }
    var total := Total(parsed.value, alphabet);
    r := Ok(total);
  }

  /** The operands after the first are positive on every line: part 2 panics
      in `ilog10` when it concatenates a zero. */
  predicate NoZeroConcatenator(input: string) {
    ParseEquations(Lines(input)).Ok? ==>
      var eqs := ParseEquations(Lines(input)).value;
      forall i :: 0 <= i < |eqs| ==> |eqs[i].operands| >= 1 && Positive(eqs[i].operands[1..])
  }

  /** `part1`. */
  method Part1(input: string) returns (r: Result<nat, string>)
    ensures r.Err? <==> ParseEquations(Lines(input)).Err?
    ensures r.Ok? ==> r.value == CalibrationTotal(ParseEquations(Lines(input)).value, MulAdd)
  {
    r := Solve(input, MulAdd);
  }

  /** `part2`. */
  method Part2(input: string) returns (r: Result<nat, string>)
    requires NoZeroConcatenator(input)
    ensures r.Err? <==> ParseEquations(Lines(input)).Err?
    ensures r.Ok? ==> r.value == CalibrationTotal(ParseEquations(Lines(input)).value, ConcatMulAdd)
  {
    r := Solve(input, ConcatMulAdd);
  }
}
