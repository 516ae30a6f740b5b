/** Reverse Polish notation calculator over a stack of integers. */
module RpnCalculator {
  import opened Wrappers
  import Arith

  datatype CalculatorInput = Add | Subtract | Multiply | Divide | Value(x: int)

  function Apply(op: CalculatorInput, op1: int, op2: int): int
    requires !op.Value? && (op.Divide? ==> op2 != 0)
  {
    match op
    case Add => op1 + op2
    case Subtract => op1 - op2
    case Multiply => op1 * op2
    case Divide => Arith.TruncDiv(op1, op2)
  }

  /** The result of running the inputs: the final stack, an underflow, or a division by zero
    * (which panics in the source). */
  datatype Outcome = Stack(stack: seq<int>) | Underflow | ZeroDivision

  /** One input applied to a stack. */
  function Step(stack: seq<int>, input: CalculatorInput): Outcome {
    match input
    case Value(x) => Stack(stack + [x])
    case _ =>
      if |stack| < 2 then Underflow
      else
        var op1, op2 := stack[|stack| - 2], stack[|stack| - 1];
        if input.Divide? && op2 == 0 then ZeroDivision
        else Stack(stack[..|stack| - 2] + [Apply(input, op1, op2)])
  }

  /** The inputs applied one by one, left to right. */
  function Run(inputs: seq<CalculatorInput>): Outcome {
    if inputs == [] then Stack([])
    else match Run(inputs[..|inputs| - 1])
      case Stack(s) => Step(s, inputs[|inputs| - 1])
      case other => other
  }

  /** `evaluate`: values are pushed; an operator pops `op2`, then `op1`, and pushes `op1 ∘ op2`;
    * the result is the single value left on the stack. */
  method Evaluate(inputs: seq<CalculatorInput>) returns (r: Option<int>)
    requires !Run(inputs).ZeroDivision?
    ensures r.Some? <==> Run(inputs).Stack? && |Run(inputs).stack| == 1
    ensures r.Some? ==> r.value == Run(inputs).stack[0]
  {
    var stack: seq<int> := [];
    var i := 0;
    while i < |inputs|
      invariant i <= |inputs|
      invariant Run(inputs[..i]) == Stack(stack)
    {
      var input := inputs[i];
      RunNext(inputs, i, stack);
      RunPrefix(inputs, i + 1);
      if input.Value? {
        stack := stack + [input.x];
      } else {
        ghost var s0 := stack;
        if |stack| == 0 {
          UnderflowStays(inputs, i + 1);
          return None;
        }
        var op2 := stack[|stack| - 1];
        stack := stack[..|stack| - 1];
        if |stack| == 0 {
          UnderflowStays(inputs, i + 1);
          return None;
        }
        var op1 := stack[|stack| - 1];
        stack := stack[..|stack| - 1];
        assert op1 == s0[|s0| - 2] && op2 == s0[|s0| - 1] && stack == s0[..|s0| - 2];
        assert input.Divide? ==> op2 != 0;
        stack := stack + [Apply(input, op1, op2)];
      }
      i := i + 1;
    }
    assert inputs[..i] == inputs;
    if |stack| != 1 {
      return None;
    }
    return Some(stack[0]);
  }

  /** One more input of a run that has not stopped is one more step. */
  lemma RunNext(inputs: seq<CalculatorInput>, i: nat, stack: seq<int>)
    requires i < |inputs| && Run(inputs[..i]) == Stack(stack)
    ensures Run(inputs[..i + 1]) == Step(stack, inputs[i])
  {
    assert inputs[..i + 1][..i] == inputs[..i];
  }

  /** A division by zero in a prefix stays in the whole run. */
  lemma {:induction false} RunPrefix(inputs: seq<CalculatorInput>, n: nat)
    requires n <= |inputs|
    ensures !Run(inputs[..n]).Stack? ==> Run(inputs) == Run(inputs[..n])
    decreases |inputs| - n
  {
    if n < |inputs| {
      RunPrefix(inputs, n + 1);
      assert inputs[..n + 1][..n] == inputs[..n];
    } else {
      assert inputs[..n] == inputs;
    }
  }

  lemma UnderflowStays(inputs: seq<CalculatorInput>, n: nat)
    requires n <= |inputs| && Run(inputs[..n]) == Underflow
    ensures Run(inputs) == Underflow
  {
    RunPrefix(inputs, n);
  }

  function Values(inputs: seq<CalculatorInput>): nat {
    if inputs == [] then 0
    else Values(inputs[..|inputs| - 1]) + (if inputs[|inputs| - 1].Value? then 1 else 0)
  }

  function Operators(inputs: seq<CalculatorInput>): nat {
    if inputs == [] then 0
    else Operators(inputs[..|inputs| - 1]) + (if inputs[|inputs| - 1].Value? then 0 else 1)
  }

  /** Every value adds one to the stack and every operator takes one away. */
  lemma {:induction false} StackHeight(inputs: seq<CalculatorInput>)
    requires Run(inputs).Stack?
    ensures |Run(inputs).stack| == Values(inputs) - Operators(inputs)
  {
    if inputs != [] {
      var prefix := inputs[..|inputs| - 1];
      assert Run(prefix).Stack?;
      StackHeight(prefix);
    }
  }

  /** Division truncates toward zero: e.g. -7 / 2 is -3, not -4. */
  lemma TruncDivExamples()
    ensures Arith.TruncDiv(7, 2) == 3 && Arith.TruncDiv(-7, 2) == -3 && Arith.TruncDiv(7, -2) == -3 && Arith.TruncDiv(-7, -2) == 3
  {
  }

  /** Truncated division leaves a remainder with the sign of the dividend and smaller in
    * magnitude than the divisor. */
  lemma TruncDivRemainder(a: int, b: int)
    requires b != 0
    ensures var r := a - Arith.TruncDiv(a, b) * b;
      (a >= 0 ==> 0 <= r) && (a < 0 ==> r <= 0) && 0 - Abs(b) < r < Abs(b)
  {
    var q := Arith.TruncDiv(a, b);
    if a >= 0 && b > 0 {
    } else if a < 0 && b < 0 {
      assert q == -a / -b;
      assert -a == (-b) * q + (-a) % (-b);
    } else if a >= 0 {
      assert q == -(a / -b);
      assert a == (-b) * (a / -b) + a % (-b);
    } else {
      assert q == -(-a / b);
      assert -a == b * (-a / b) + (-a) % b;
    }
  }

  function Abs(x: int): int {
    if x >= 0 then x else -x
  }
}
