/**
 * The keypad window of calculator/gui.py: the entry state machine behind the
 * Basic and Scientific tabs.  Each key press is one step on the four entry
 * fields `currentNumber` (the display text), `operation`, `lastNumber` and
 * `shouldReset`.
 */
module Keypad {
  import opened Results
  import opened Text
  import opened Numerals
  import opened Core
  import opened Display
  import opened Operators

  /** `core.power`, whose `math.pow` is given from outside the model. */
  type PowerFn = (real, real) -> Result<real, MathError>

  /**
   * The dispatch of `execute_operation` on the pending operator: the core
   * helper for the key, with the result of `nPr`/`nCr` taken as a number.
   */
  function Operate(op: Op, a: real, b: real, power: PowerFn): (r: Result<real, MathError>)
    ensures r.Failure? <==>
      || (op == Divide && b == 0.0)
      || (op == Power && power(a, b).Failure?)
      || ((op == Permutations || op == Combinations) && !ValidSelection(a, b))
    ensures op == Plus ==> r == Success(a + b)
    ensures op == Minus ==> r == Success(a - b)
    ensures op == Times ==> r == Success(a * b)
    ensures r.Success? && op == Divide ==> r.value * b == a
    ensures op == Power ==> r == power(a, b)
    ensures r.Success? && op == Permutations ==> r.value == NPr(a, b).value as real
    ensures r.Success? && op == Combinations ==> r.value == NCr(a, b).value as real
  {
    match op
    case Plus => Success(SafeAdd(a, b))
    case Minus => Success(SafeSub(a, b))
    case Times => Success(SafeMul(a, b))
    case Divide => SafeDiv(a, b)
    case Power => power(a, b)
    case Permutations =>
      (match NPr(a, b)
       case Failure(e) => Failure(e)
       case Success(n) => Success(n as real))
    case Combinations =>
      (match NCr(a, b)
       case Failure(e) => Failure(e)
       case Success(n) => Success(n as real))
  }

  /**
   * `-` undoes `+`, `+` undoes `-` and, for a non-zero right operand, `÷`
   * undoes `×`.
   */
  lemma OperateInverses(a: real, b: real, power: PowerFn)
    ensures Operate(Minus, Operate(Plus, a, b, power).value, b, power) == Success(a)
    ensures Operate(Plus, Operate(Minus, a, b, power).value, b, power) == Success(a)
    ensures b != 0.0 ==> Operate(Divide, Operate(Times, a, b, power).value, b, power) == Success(a)
  {
    ArithmeticInverses(a, b);
  }

  /**
   * `=` past its guard: `float` of the display, then the pending operator;
   * a display that does not parse raises `ValueError`.
   */
  function Evaluate(op: Op, a: real, display: string, power: PowerFn): (r: Result<real, MathError>)
    ensures ParseNum(display).None? ==> r.Failure? && r.error.ValueError?
    ensures ParseNum(display).Some? ==> r == Operate(op, a, ParseNum(display).value, power)
  {
    match ParseNum(display)
    case None => Failure(ValueError("could not convert string to float"))
    case Some(b) => Operate(op, a, b, power)
  }

  /**
   * The `x!` key: the factorial of `float` of the display rendered with
   * `str`, or `Error` when the display does not parse or truncates to a
   * negative integer.
   */
  function FactorialText(display: string): (r: string)
    ensures ParseNum(display).None? ==> r == "Error"
    ensures ParseNum(display).Some? && Truncate(ParseNum(display).value) < 0 ==> r == "Error"
    ensures ParseNum(display).Some? && Truncate(ParseNum(display).value) >= 0 ==>
      ParseNum(r) == Some(Fact(Truncate(ParseNum(display).value)) as real)
    ensures ParseNum(display).Some? && Truncate(ParseNum(display).value) >= 0 ==>
      AllDigits(r) && r[0] != '0'
  {
    match ParseNum(display)
    case None => "Error"
    case Some(v) =>
      match Factorial(v)
      case Failure(_) => "Error"
      case Success(n) =>
        IntToDecimalRoundTrip(n);
        IntToDecimal(n)
  }

  /** The text `Error` shown after a failure is not a number, so `=` on it fails again. */
  lemma ErrorIsNotANumber()
    ensures ParseNum("Error") == None
  {
    var k := IndexOfAny("Error", "eE");
    assert "Error"[0] == 'E';
    IndexOfAnyPrefix("Error", "eE", 0);
    assert k == 0;
  }

  /** The entry state of the keypad window. */
  class CalculatorGUI {
    var currentNumber: string
    var operation: Option<Op>
    var lastNumber: Option<real>
    var shouldReset: bool
    var memory: real
    var angleMode: string
    /** `math.pow`, behind `core.power`. */
    const power: PowerFn
    /** The `.10g` rendering of a non-integral result in `core.format_result`. */
    const formatFraction: real -> string

    constructor(power: PowerFn, formatFraction: real -> string)
      ensures currentNumber == "0" && operation == None && lastNumber == None && !shouldReset
      ensures memory == 0.0 && angleMode == "DEG"
      ensures this.power == power && this.formatFraction == formatFraction
    {
      currentNumber := "0";
      operation := None;
      lastNumber := None;
      shouldReset := false;
      memory := 0.0;
      angleMode := "DEG";
      this.power := power;
      this.formatFraction := formatFraction;
    }

    /** A digit key `0`–`9`. */
    method PressDigit(d: char)
      requires IsDigit(d)
      modifies this
      ensures currentNumber == EnterDigit(old(currentNumber), old(shouldReset), d)
      ensures !shouldReset
      ensures operation == old(operation) && lastNumber == old(lastNumber)
      ensures memory == old(memory) && angleMode == old(angleMode)
    {
      if shouldReset {
        currentNumber := [d];
        shouldReset := false;
      } else {
        currentNumber := if currentNumber != "0" then currentNumber else "";
        currentNumber := currentNumber + [d];
      }
    }

    /** The `.` key. */
    method PressPoint()
      modifies this
      ensures currentNumber == EnterPoint(old(currentNumber))
      ensures shouldReset == old(shouldReset) && operation == old(operation) && lastNumber == old(lastNumber)
      ensures memory == old(memory) && angleMode == old(angleMode)
    {
      if '.' !in currentNumber {
        currentNumber := currentNumber + ".";
      }
    }

    /** The `←` key. */
    method PressBackspace()
      modifies this
      ensures currentNumber == Backspace(old(currentNumber)) && currentNumber != ""
      ensures shouldReset == old(shouldReset) && operation == old(operation) && lastNumber == old(lastNumber)
      ensures memory == old(memory) && angleMode == old(angleMode)
    {
      currentNumber := if |currentNumber| > 1 then currentNumber[..|currentNumber| - 1] else "0";
    }

    /** The `±` key. */
    method PressSign()
      modifies this
      ensures currentNumber == ToggleSign(old(currentNumber))
      ensures shouldReset == old(shouldReset) && operation == old(operation) && lastNumber == old(lastNumber)
      ensures memory == old(memory) && angleMode == old(angleMode)
    {
      if currentNumber != "" && currentNumber != "0" {
        if currentNumber[0] == '-' {
          currentNumber := currentNumber[1..];
        } else {
          currentNumber := "-" + currentNumber;
        }
      }
    }

    /**
     * An operator key `+ - × ÷ ^ nPr nCr`: remembers the displayed number
     * (`0.0` when it does not parse) and the operator, replacing any pending
     * one without evaluating it.
     */
    method PressOperator(op: Op)
      modifies this
      ensures ParseNum(old(currentNumber)).Some? ==> lastNumber == ParseNum(old(currentNumber))
      ensures ParseNum(old(currentNumber)).None? ==> lastNumber == Some(0.0)
      ensures operation == Some(op) && shouldReset
      ensures currentNumber == old(currentNumber)
      ensures memory == old(memory) && angleMode == old(angleMode)
    {
      match ParseNum(currentNumber) {
        case Some(v) => lastNumber := Some(v);
        case None => lastNumber := Some(0.0);
      }
      operation := Some(op);
      shouldReset := true;
    }

    /** The `x!` key; it leaves `shouldReset` as it was. */
    method PressFactorial()
      modifies this
      ensures currentNumber == FactorialText(old(currentNumber))
      ensures shouldReset == old(shouldReset) && operation == old(operation) && lastNumber == old(lastNumber)
      ensures memory == old(memory) && angleMode == old(angleMode)
    {
      currentNumber := FactorialText(currentNumber);
    }

    /**
     * The `=` key.  Without a pending operator and operand nothing changes.
     * Otherwise a result is shown through `format_result` and the pending
     * operation is cleared; a failure shows `Error` and keeps it pending.
     */
    method ExecuteOperation()
      modifies this
      ensures old(operation).None? || old(lastNumber).None? ==>
        currentNumber == old(currentNumber) && operation == old(operation)
        && lastNumber == old(lastNumber) && shouldReset == old(shouldReset)
      ensures old(operation).Some? && old(lastNumber).Some? ==>
        var r := Evaluate(old(operation).value, old(lastNumber).value, old(currentNumber), power);
        && (r.Success? ==>
              currentNumber == FormatResult(r.value, formatFraction)
              && operation == None && lastNumber == None && shouldReset)
        && (r.Failure? ==>
              currentNumber == "Error"
              && operation == old(operation) && lastNumber == old(lastNumber) && shouldReset == old(shouldReset))
      ensures memory == old(memory) && angleMode == old(angleMode)
    {
      if operation.None? || lastNumber.None? {
        return;
      }
      var res := Evaluate(operation.value, lastNumber.value, currentNumber, power);
      match res {
        case Success(v) =>
          currentNumber := FormatResult(v, formatFraction);
          operation := None;
          lastNumber := None;
          shouldReset := true;
        case Failure(_) =>
          currentNumber := "Error";
      }
    }

    /** The `C` key: resets the four entry fields; memory and angle mode stay. */
    method Clear()
      modifies this
      ensures currentNumber == "0" && operation == None && lastNumber == None && !shouldReset
      ensures memory == old(memory) && angleMode == old(angleMode)
    {
      currentNumber := "0";
      operation := None;
      lastNumber := None;
      shouldReset := false;
    }
  }

  /**
   * `2 + 3 × 4 =` shows `12`: the second operator replaces the pending `+`
   * instead of evaluating it, so only `3 × 4` is computed.
   */
  method PendingOperatorReplaced(power: PowerFn, formatFraction: real -> string) returns (shown: string)
    ensures shown == "12"
  {
    var gui := new CalculatorGUI(power, formatFraction);
    gui.PressDigit('2');
    gui.PressOperator(Plus);
    gui.PressDigit('3');
    SingleDigit('3');
    gui.PressOperator(Times);
    gui.PressDigit('4');
    SingleDigit('4');
    assert gui.lastNumber == Some(3.0) && gui.operation == Some(Times);
    gui.ExecuteOperation();
    Twelve(formatFraction);
    shown := gui.currentNumber;
  }

  /** The text `format_result` gives for twelve. */
  lemma Twelve(formatFraction: real -> string)
    ensures FormatResult(12.0, formatFraction) == "12"
  {
    assert IsIntegral(12.0);
    assert NatToDecimal(1) == "1";
  }

  /**
   * After a failure the display reads `Error`, so an operator key then
   * remembers `0.0`.
   */
  method OperatorAfterError(gui: CalculatorGUI, op: Op)
    requires gui.currentNumber == "Error"
    modifies gui
    ensures gui.lastNumber == Some(0.0) && gui.operation == Some(op)
  {
    ErrorIsNotANumber();
    gui.PressOperator(op);
  }
}
