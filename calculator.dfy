/**
  `Fp_Calc`: an accumulator calculator over fixed-point values.

  It holds the current value, the input value and a pending operator. Every
  operator method first applies the operator queued by the previous call to
  (current, input), then queues its own symbol. Only ' ' (copy the input),
  '+' and '-' do anything when applied; '*' and '/' can be queued, but
  applying them leaves the current value as it is.
 */
module Calculator {
  import opened Decimal
  import opened FixedPoints

  /** The characters `m_op` can hold: ' ' for none, '+', '-', '*', '/'. */
  predicate IsOperator(op: char) {
    op == ' ' || op == '+' || op == '-' || op == '*' || op == '/'
  }

  /**
    `_calc_result` on values: the current value after applying the pending
    operator. A sum or a difference is at the larger of the two precisions,
    and every operator keeps normalized operands normalized.
   */
  function Apply(op: char, current: FixedPoint, input: FixedPoint): (r: FixedPoint)
    ensures op == '+' || op == '-' ==> r.precision == Max(current.precision, input.precision)
    ensures Normalized(current) && Normalized(input) ==> Normalized(r)
  {
    SumAndDifferenceNormalized(current, input);
    match op
    case '+' => Add(current, input)
    case '-' => Sub(current, input)
    case ' ' => input
    case _ => current
  }

  lemma SumAndDifferenceNormalized(a: FixedPoint, b: FixedPoint)
    ensures Normalized(a) && Normalized(b) ==> Normalized(Add(a, b)) && Normalized(Sub(a, b))
  {
    if Normalized(a) && Normalized(b) {
      AddSum(a, b);
      SubDifference(a, b);
    }
  }

  /**
    What the applied operator does to the number the current value stands
    for, at the larger of the two precisions P: ' ' takes the input, '-'
    subtracts it exactly, '+' adds it exactly when the integer parts sum to a
    non-negative number, and every other operator leaves the value alone.
   */
  lemma ApplyValue(op: char, current: FixedPoint, input: FixedPoint)
    requires Normalized(current) && Normalized(input)
    ensures var r := Apply(op, current, input); var p := Max(current.precision, input.precision);
      var c := Scaled(current) * Pow10(p - current.precision);
      var i := Scaled(input) * Pow10(p - input.precision);
      (op == ' ' ==> r == input) &&
      (op == '-' ==> r.precision == p && Scaled(r) == c - i) &&
      (op == '+' && current.intPart + input.intPart >= 0 ==> r.precision == p && Scaled(r) == c + i) &&
      (!(op in " +-") ==> r == current)
  {
    if op == '+' {
      AddSum(current, input);
    } else if op == '-' {
      SubDifference(current, input);
    }
  }

  class FpCalc {
    var current: FixedPoint
    var input: FixedPoint
    var op: char

    /** Both values normalized and a known operator pending. */
    ghost predicate Valid()
      reads this
    {
      Normalized(current) && Normalized(input) && IsOperator(op)
    }

    /** The constructor: current and input are the default (0, 0, 9), nothing is pending. */
    constructor ()
      ensures Valid()
      ensures current == Zero() && input == Zero() && op == ' '
    {
      var z := Zero();
      current := z;
      input := z;
      op := ' ';
    }

    /** `_calc_result`: apply the pending operator to the current value. */
    method CalcResult()
      requires Valid()
      modifies this
      ensures Valid()
      ensures current == Apply(old(op), old(current), old(input))
      ensures input == old(input) && op == old(op)
    {
      match op
      case '+' => current := FixedPoints.Add(current, input);
      case '-' => current := FixedPoints.Sub(current, input);
      case ' ' => current := input;
      case _ =>
    }

    /** `clear`: reset the input to the default value (0, 0, 9); nothing else changes. */
    method Clear()
      requires Valid()
      modifies this
      ensures Valid()
      ensures input == Zero() && current == old(current) && op == old(op)
    {
      var z := Zero();
      input := z;
    }

    /** `set_input`: parse the input value; nothing else changes. */
    method SetInput(s: string)
      requires Valid() && IsDecimal(s)
      modifies this
      ensures Valid()
      ensures input == FromString(s) && current == old(current) && op == old(op)
    {
      input := FromString(s);
    }

    /** `add`: apply the pending operator, then queue '+'. */
    method Add()
      requires Valid()
      modifies this
      ensures Valid()
      ensures current == Apply(old(op), old(current), old(input))
      ensures input == old(input) && op == '+'
    {
      CalcResult();
      op := '+';
    }

    /** `sub`: apply the pending operator, then queue '-'. */
    method Sub()
      requires Valid()
      modifies this
      ensures Valid()
      ensures current == Apply(old(op), old(current), old(input))
      ensures input == old(input) && op == '-'
    {
      CalcResult();
      op := '-';
    }

    /** `mul`: apply the pending operator, then queue '*' (which itself computes nothing). */
    method Mul()
      requires Valid()
      modifies this
      ensures Valid()
      ensures current == Apply(old(op), old(current), old(input))
      ensures input == old(input) && op == '*'
    {
      CalcResult();
      op := '*';
    }

    /** `div`: apply the pending operator, then queue '/' (which itself computes nothing). */
    method Div()
      requires Valid()
      modifies this
      ensures Valid()
      ensures current == Apply(old(op), old(current), old(input))
      ensures input == old(input) && op == '/'
    {
      CalcResult();
      op := '/';
    }

    /** `assign`: apply the pending operator, then queue ' '. */
    method Assign()
      requires Valid()
      modifies this
      ensures Valid()
      ensures current == Apply(old(op), old(current), old(input))
      ensures input == old(input) && op == ' '
    {
      CalcResult();
      op := ' ';
    }

    /** `get_curr_val`. */
    method GetCurrVal() returns (v: FixedPoint)
      requires Valid()
      ensures v == current && Normalized(v)
    {
      v := current;
    }

    /** `get_op`. */
    method GetOp() returns (c: char)
      requires Valid()
      ensures c == op && IsOperator(c)
    {
      c := op;
    }

    /** `get_input_val`. */
    method GetInputVal() returns (v: FixedPoint)
      requires Valid()
      ensures v == input && Normalized(v)
    {
      v := input;
    }
  }

  /** The inputs of the demonstration sequence below, parsed. */
  lemma TraceInputs()
    ensures IsDecimal("10.0") && FromString("10.0") == FixedPoint(10, 0, 1)
    ensures IsDecimal("20.0123") && FromString("20.0123") == FixedPoint(20, 123, 4)
    ensures IsDecimal("30.000456") && FromString("30.000456") == FixedPoint(30, 456, 6)
  {
    ParseExample();
    ParseTen();
    ParseTwenty();
  }

  lemma ParseTen()
    ensures IsDecimal("10.0") && FromString("10.0") == FixedPoint(10, 0, 1)
  {
    ParseOfParts("10", "0");
    assert "10" + "." + "0" == "10.0";
    assert DigitsValue("10") == 10;
  }

  lemma ParseTwenty()
    ensures IsDecimal("20.0123") && FromString("20.0123") == FixedPoint(20, 123, 4)
  {
    Digits123();
    LeadingZerosValue(1, "123");
    assert Zeros(1) + "123" == "0123";
    ParseOfParts("20", "0123");
    assert "20" + "." + "0123" == "20.0123";
    assert DigitsValue("20") == 20;
  }

  lemma Digits123()
    ensures IsDigits("123") && DigitsValue("123") == 123
  {
    assert "123"[..2] == "12" && "12"[..1] == "1";
  }

  /** The first result of the demonstration sequence: 10.0 + 30.000456. */
  lemma TraceSum()
    ensures Add(FixedPoint(10, 0, 1), FixedPoint(30, 456, 6)) == FixedPoint(40, 456, 6)
  {
    var a, b := FixedPoint(10, 0, 1), FixedPoint(30, 456, 6);
    OperandWidens(a, 6);
    assert SetPrecision(a, 6) == FixedPoint(10, 0, 6);
    NormalizeFixesNormalized(b, 6);
    AddUnfolds(a, b);
    var s := FixedPoint(40, 456, 6);
    NormalizeInPlace(s);
    assert Carry(s) == s;
  }

  /** How the first result of the demonstration sequence renders. */
  lemma TraceRenderSum()
    ensures ToString(FixedPoint(40, 456, 6)) == "40.000456"
  {
    SumFractionText();
    assert NatToString(40) == "40";
    assert "40" + "." + "000456" == "40.000456";
  }

  /** The fraction 456 at precision 6 is padded to "000456". */
  lemma SumFractionText()
    ensures NatToString(456) == "456" && FitFraction("456", 6) == "000456"
  {
    assert NatToString(45) == "45";
    assert Zeros(3) == "000";
  }


  lemma DifferenceDigits()
    ensures NatToString(988156) == "988156"
  {
    assert NatToString(98) == "98" && NatToString(988) == "988";
    assert NatToString(9881) == "9881" && NatToString(98815) == "98815";
  }

  /** How the second result of the demonstration sequence renders. */
  lemma TraceRenderDifference()
    ensures ToString(FixedPoint(19, 988156, 6)) == "19.988156"
  {
    DifferenceDigits();
    assert NatToString(19) == "19";
    assert ToString(FixedPoint(19, 988156, 6)) == "19" + "." + "988156";
  }

  /**
    The call sequence of the demonstration driver `main`: 10.0 is taken by
    `add` (the pending ' ' copies it), the cleared input is replaced by
    30.000456, `sub` applies the queued '+', and `assign` applies the queued
    '-' to 20.0123.
   */
  method DemoTrace() returns (afterSub: string, afterAssign: string)
    ensures afterSub == "40.000456" && afterAssign == "19.988156"
  {
    TraceInputs();
    TraceSum();
    SubExample();
    TraceRenderSum();
    TraceRenderDifference();
    var machine := new FpCalc();
    machine.SetInput("10.0");
    machine.Add();
    machine.SetInput("20.0123");
    machine.Clear();
    machine.SetInput("30.000456");
    machine.Sub();
    var v := machine.GetCurrVal();
    afterSub := ToString(v);
    machine.SetInput("20.0123");
    machine.Assign();
    v := machine.GetCurrVal();
    afterAssign := ToString(v);
  }
}
